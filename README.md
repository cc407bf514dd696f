# A* grid path search, modelled in Dafny

This project models `class AStar` of Pathfinding/Pathfinding.cpp. The class searches a
`mapWidth` x `mapHeight` grid, stored row after row in a flat byte array, for a path of
orthogonal steps between two cells. A byte of 1 marks a walkable cell. The search keeps two
frontiers:

- `closestNodes`, a stack of neighbours strictly closer to the target than the node they
  came from. It is always served first and is never deduplicated.
- `openNodes`, a priority queue ordered by `Comp`: smallest f = g + h first, and on a tie
  the smaller h. The `visited` table keeps a cell from entering it twice.

The loop stops when it pops a node on the target's cell, or when both frontiers are empty.
Unless it has already returned at lines 126-136 (a result of -1, or g larger than
`outBufferSize`), `FindPath` then walks the parent links back to the start and writes the
cells' indices (`x + y * mapWidth`) into the caller's buffer in walking order.

The model has six modules:

- `GridAdapter` (grid.dfy): the row-major layout and the Manhattan distance.
- `Nodes` (nodes.dfy): search nodes, `Comp`, and what the queue's top is.
- `Arena` (arena.dfy): parent links and the path they spell.
  - A node's parent is a slot in `nodes`, the sequence of every node that has been the
    current node, in order. It replaces the source's `Node*` parent pointer.
  - `None` stands for the start node's null parent.
- `Expansion` (expansion.dfy): `checkNeighbour` and the four guarded calls of one expansion,
  as functions on a value `Frontier`, with their properties.
- `Exploration` (explore.dfy): what the search loop has explored, and why running out of
  nodes away from the target means that no walk from the start reaches the target.
- `Pathfinding` (astar.dfy): `class AStar`.
  - It has the source's fields except `outBufferSize` and `outBuffer` (lines 49-50), which
    `FindPath`'s parameters of the same names shadow and nothing reads. It adds the arena
    `nodes` and the ghost log `enqueued`. `closestNodes` and `openNodes` are sequences,
    `visited` is an array, and `currentNode` is a slot of `nodes`.
  - Its methods change that state exactly as the `Expansion` functions say.
  - `FindPath` is split along the source's own phases: set-up, search loop, parent walk, and
    buffer fill.

The priority queue is an unordered sequence. A pop may take any entry that no other entry
ranks before under `Comp` (`IsTop`). This is all the source relies on: `std::priority_queue`
breaks ties among equal (f, h) in an unspecified way.

The post-loop test at line 126 is modelled as written. It returns -1 only when the final
node differs from the target in both x and y. A search that exhausts both frontiers on a node
sharing the target's row or column returns that node's g instead. It also writes the path to
that node when g is at most `outBufferSize`; otherwise lines 132-136 return g with the buffer
untouched. `BlockedCorridor` proves this for the 3 x 1 map `[1, 0, 1]` from (0, 0) to (2, 0): the
result is 0, although no walk from (0, 0) reaches (2, 0). The comment on line 126 says the
test detects a failed search; it catches only a final node that differs from the target in
both coordinates. The model follows the code.

A failed search is never a false alarm. The loop keeps an invariant over the `closed` table:

- every walkable neighbour of a closed cell is closed, visited, or has a node on the stack;
- every visited cell is closed or has a node in the queue;
- the target's cell is never closed, and the start's cell is closed after the first round.

When both frontiers are empty, every cell a walk from the start can reach is therefore
closed, and the target is not among them. `Search` and `FindPath` state this whenever the
search ends away from the target, including every result of -1.

Termination of the search loop is proved with a lexicographic measure. The first component
is the number of unvisited cells plus the queue's length. The second is the sum of 5^h over
the stack's entries.

## Model

| member | source | states |
|---|---|---|
| GridAdapter.Index | Pathfinding/Pathfinding.cpp:114-122 | the slot `x + y * width` of an in-bounds cell lies inside the map |
| GridAdapter.RowMajor | Pathfinding/Pathfinding.cpp:114-122 | for an in-bounds cell, `x + y * w` lies in `[0, w * h)`, and `% w` and `/ w` give back x and y |
| GridAdapter.IndexRoundTrip | Pathfinding/Pathfinding.cpp:144 | the column and row of a cell can be read back from its slot |
| GridAdapter.IndexInjective | Pathfinding/Pathfinding.cpp:66-69 | two in-bounds cells share a slot, and so a `visited` flag, exactly when they are the same cell |
| GridAdapter.Distance | Pathfinding/Pathfinding.cpp:53-56 | the Manhattan distance is non-negative, and 0 exactly when the two cells coincide |
| GridAdapter.DistanceSymmetric | Pathfinding/Pathfinding.cpp:53-56 | the distance is symmetric |
| GridAdapter.StepChangesDistanceByOne | Pathfinding/Pathfinding.cpp:53-56 | one orthogonal step changes the distance to the target by exactly one, up or down |
| GridAdapter.AdjacentIsOrthogonalStep | Pathfinding/Pathfinding.cpp:114-121 | the cells one step away are exactly the four the expansion looks at (left, right, up, down) |
| Nodes.CompIsStrictWeakOrder | Pathfinding/Pathfinding.cpp:38-45 | `Comp` is irreflexive, asymmetric and transitive, and two nodes tie exactly when f and h agree |
| Nodes.Comp | Pathfinding/Pathfinding.cpp:38-45 | `Comp(a, b)` holds exactly when a's f is larger than b's, or the f values are equal and a's h is larger: a is served after b |
| Nodes.IsTop | Pathfinding/Pathfinding.cpp:106-107 | an entry may be popped exactly when every entry has a larger f, or the same f and an h no smaller: the smallest f first, and among equal f the smallest h |
| Nodes.TopExists | Pathfinding/Pathfinding.cpp:106-107 | a non-empty queue has a top |
| Arena.PathTo | Pathfinding/Pathfinding.cpp:142-146 | the cells read off the parent links from arena slot i are at most i in number: every link points to an earlier slot, so the walk back ends |
| Arena.PathSlots | Pathfinding/Pathfinding.cpp:140-146 | the slots met walking the parent links from a node are exactly g in number |
| Arena.PathSlotsStep | Pathfinding/Pathfinding.cpp:142-146 | one parent link: the parent comes earlier in the arena, has g one less, and its path is the node's path without the node's own slot |
| Arena.PathSlotsPrefix | Pathfinding/Pathfinding.cpp:142-145 | one step of the walk back: the node's slot is the last of its prefix of the path's slots, and its parent's slots are that prefix one shorter |
| Arena.PathSlotsAreCells | Pathfinding/Pathfinding.cpp:142-146 | the slots are, one for one, the row-major slots of the cells of the path |
| Arena.PathLength | Pathfinding/Pathfinding.cpp:61-62 | g equals the number of parent links from a node back to the start |
| Arena.PathIsWalk | Pathfinding/Pathfinding.cpp:61-62 | the path to a node is a walk from the start: every cell walkable, each one step from the one before, and the first one step from the start; it ends on the node's cell, or is empty for a node on the start cell |
| Arena.ArenaPush | Pathfinding/Pathfinding.cpp:99-108 | making a waiting node the current node keeps every parent link pointing to an earlier arena slot |
| Arena.IsolatedStart | Pathfinding/Pathfinding.cpp:114-121 | when no neighbour of the start is walkable, the start node is the only node the search ever stands on |
| Expansion.Neighbour | Pathfinding/Pathfinding.cpp:61-62 | the new node's f equals the current node's when the step goes closer to the target, and is 2 more otherwise: the Manhattan heuristic is consistent |
| Expansion.Check | Pathfinding/Pathfinding.cpp:59-72 | checkNeighbour never shortens either frontier, pushes at most one node, and leaves the visited table's size unchanged |
| Expansion.Visit | Pathfinding/Pathfinding.cpp:114-121 | one guarded check never shortens either frontier and pushes at most one node |
| Expansion.NeighbourCells | Pathfinding/Pathfinding.cpp:114-121 | the four cells an expansion looks at are each one step from the current node |
| Expansion.VisitAll | Pathfinding/Pathfinding.cpp:114-121 | a run of n guarded checks never shortens either frontier and pushes at most n nodes |
| Expansion.Expand | Pathfinding/Pathfinding.cpp:114-121 | an expansion never shortens either frontier and pushes at most four nodes |
| Expansion.ExpandIsFourVisits | Pathfinding/Pathfinding.cpp:114-121 | an expansion is the four guarded checks in the source's order: left, right, up, down |
| Expansion.VisitGrows | Pathfinding/Pathfinding.cpp:59-72 | one guarded check only pushes: closer nodes onto the stack, the others onto the queue |
| Expansion.ExpandAddsOnlyOpenNeighbours | Pathfinding/Pathfinding.cpp:59-72 | an expansion only appends, leaving what was waiting in place. Every node it adds is an in-bounds, walkable, not-closed neighbour with g one more than the current node's, its own distance as h, and the current node as parent. It goes onto the stack exactly when its h is smaller than the current node's |
| Expansion.ExpandCoversNeighbours | Pathfinding/Pathfinding.cpp:114-121 | an expansion misses no neighbour: each passable one ends with its node on the stack, when closer to the target, or with its cell marked visited |
| Expansion.ExpandKeepsFrontierValid | Pathfinding/Pathfinding.cpp:59-62 | the nodes an expansion adds link into the arena, so both frontiers stay well linked |
| Expansion.CheckQueuesOnce | Pathfinding/Pathfinding.cpp:66-70 | checkNeighbour keeps the visited flags equal to the set of cells ever queued, with no cell queued twice |
| Expansion.ExpandQueuesOnce | Pathfinding/Pathfinding.cpp:66-70 | an expansion keeps that property: each cell enters the open queue at most once |
| Expansion.CheckKeepsQueueDistinct | Pathfinding/Pathfinding.cpp:67-70 | checkNeighbour queues a node only for an unvisited cell and marks it, so no two queue entries share a cell and every entry's cell is visited |
| Expansion.ExpandKeepsQueueDistinct | Pathfinding/Pathfinding.cpp:114-121 | an expansion keeps the queue's cells distinct and visited |
| Expansion.RemoveKeepsQueueDistinct | Pathfinding/Pathfinding.cpp:106-107 | popping any entry keeps the queue's cells distinct and visited |
| Expansion.ExpandKeepsSearchInvariant | Pathfinding/Pathfinding.cpp:113-121 | an expansion keeps both frontiers well linked and the queue taking each cell at most once, and moves the loop's measure as ExpandProgress says |
| Expansion.CountFalseMark | Pathfinding/Pathfinding.cpp:70 | marking an unvisited cell visited leaves exactly one unvisited cell fewer |
| Expansion.CheckProgress | Pathfinding/Pathfinding.cpp:64-70 | a check trades an unvisited cell for a queue entry, or pushes a stack node whose weight is at most a fifth of the current node's |
| Expansion.ExpandProgress | Pathfinding/Pathfinding.cpp:97-124 | an expansion keeps (unvisited cells + queue length), and adds less stack weight than its pop removed |
| Exploration.CheckExtends | Pathfinding/Pathfinding.cpp:64-71 | checkNeighbour keeps every waiting node and every visited flag, and the cell it marks visited has its node in the queue |
| Exploration.ExpandExtends | Pathfinding/Pathfinding.cpp:114-121 | an expansion keeps every waiting node and every visited flag, and each cell it marks visited has its node in the queue |
| Exploration.PopKeepsOthers | Pathfinding/Pathfinding.cpp:99-108 | a pop loses no waiting node other than the one it takes, from the stack or from the queue |
| Exploration.PopKeepsLinks | Pathfinding/Pathfinding.cpp:99-108 | after a pop, with the popped node joined to the arena, the arena and both frontiers stay well linked, and the queue's cells stay distinct and visited |
| Exploration.ClosedNotedStep | Pathfinding/Pathfinding.cpp:113-123 | after the current node is expanded and its cell closed, every walkable neighbour of every closed cell is closed, visited, or has a node on the stack |
| Exploration.VisitedOpenStep | Pathfinding/Pathfinding.cpp:113-123 | after the current node is expanded and its cell closed, every visited cell is closed or has a node in the queue |
| Exploration.SearchStep | Pathfinding/Pathfinding.cpp:97-124 | a round that pops a node away from the target keeps both facts above, never closes the target, and has closed the start once the first round is done |
| Exploration.ExhaustedWalkClosed | Pathfinding/Pathfinding.cpp:97-124 | once both frontiers are empty, every cell of a walk from the start is closed |
| Exploration.ExhaustedSearchFindsNoWalk | Pathfinding/Pathfinding.cpp:97-124 | once both frontiers are empty with the target not closed, no walk from the start reaches the target |
| Pathfinding.AStar.constructor | Pathfinding/Pathfinding.cpp:12-51 | a new object has empty frontiers and no visited table |
| Pathfinding.AStar.CheckNeighbour | Pathfinding/Pathfinding.cpp:59-72 | the stack, queue, visited table and queue log change exactly as `Check` says, and nothing else changes |
| Pathfinding.AStar.TakeNext | Pathfinding/Pathfinding.cpp:99-108 | the stack's top is taken while the stack is not empty, leaving the queue alone; otherwise a queue entry that is a top under `Comp` is removed and nothing else |
| Pathfinding.AStar.PopCurrent | Pathfinding/Pathfinding.cpp:99-108 | the stack's top is taken while the stack is not empty, leaving the queue alone; otherwise a queue entry that is a top under `Comp` is removed and nothing else. The node joins the arena, and the search invariant is kept |
| Pathfinding.AStar.VisitNeighbour | Pathfinding/Pathfinding.cpp:114-121 | one guarded call changes the state exactly as `Visit` says |
| Pathfinding.AStar.ExpandNeighbours | Pathfinding/Pathfinding.cpp:114-121 | the four guarded calls change the state exactly as `Expand` says, keep the search invariant, and shrink the loop's measure |
| Pathfinding.AStar.ExpandCurrent | Pathfinding/Pathfinding.cpp:113-123 | as ExpandNeighbours, and then the current cell, and no other, is closed |
| Pathfinding.AStar.ExploreCurrent | Pathfinding/Pathfinding.cpp:113-123 | after a pop away from the target, the frontiers change exactly as `Expand` says and exactly the current cell is closed; the search invariant and the exploration invariant are kept, and the whole round shrinks the loop's measure |
| Pathfinding.AStar.Init | Pathfinding/Pathfinding.cpp:79-95 | the start node has g 0, its distance to the target as h, and no parent. The visited and closed tables are all false, the queue log is empty, and the start node is the only entry of either frontier |
| Pathfinding.AStar.Search | Pathfinding/Pathfinding.cpp:97-124 | the loop terminates and keeps the invariant. It ends away from the target only with both frontiers empty, and then no walk from the start reaches the target. A start on the target ends it at once on the start node |
| Pathfinding.AStar.CollectPath | Pathfinding/Pathfinding.cpp:138-146 | the stack holds the g slots of the path, the first cell after the start on top |
| Pathfinding.AStar.WritePath | Pathfinding/Pathfinding.cpp:138-152 | returns g. The buffer's first g entries are the path's slots in walking order, and the entries after them are untouched |
| Pathfinding.AStar.FindPath | Pathfinding/Pathfinding.cpp:77-159 | the result is -1 exactly when the final node differs from the target in both coordinates, and g otherwise. The path to the final node is a walk of g cells from the start. The buffer is untouched on -1 or when g exceeds `outBufferSize`; otherwise it holds the path's slots, with the entries after them untouched. A start on the target gives 0 and an untouched buffer. When the search ends away from the target, and so whenever the result is -1, no walk from the start reaches the target |
| Pathfinding.BlockedCorridor | Pathfinding/Pathfinding.cpp:126-130 | on the 3 x 1 map `[1, 0, 1]` from (0, 0) to (2, 0), no walk reaches the target, yet the result is 0 rather than -1 |

## Left out

- `main` (Pathfinding/Pathfinding.cpp:162-225) is not part of this model: it is a demo with a fixed map and console output.
- Memory management is not modelled.
  - Nodes are values, and parents are arena slots. The arena holds only nodes that became the current node; nodes left in a frontier are dropped.
  - `delete currentNode, startNode, targetNode` frees only `currentNode` (comma operator), so the other two leak.
  - Line 135 reads `gValue` after that delete. The model returns the g read before it.
- FindPath: reuse of one object across calls is not modelled. The object must be new, as the demo uses it.
  - `visited` is only resized, never cleared.
  - The frontiers are reset only on the success path.
- FindPath: inputs the source never checks are preconditions:
  - positive dimensions;
  - `|map| == mapWidth * mapHeight`, and `mapWidth * mapHeight` fits in an `int`;
  - start and target inside the grid;
  - `outBufferSize` no larger than the caller's buffer.
- The member fields `outBufferSize` and `outBuffer` (lines 49-50) are not modelled: `FindPath`'s parameters of the same names shadow them and nothing reads them.
- Integer width: g and h are unbounded naturals. A g overflowing `int` on a huge map is not modelled.
- The line-88 branch compares two freshly allocated pointers, so it never runs and is not modelled. A start on the target is popped first and ends the loop at once: the result is 0 and the buffer is not written. Lines 90-91 would write `outBuffer[0]` in that case, but they are never reached.
- Shortest-path optimality: the stack of closer nodes means the source does not promise a shortest path, so nothing is claimed about it.
- The internal layout of `std::priority_queue`'s heap is not modelled. A pop may take any entry that is least under `Comp`, so ties in (f, h) may go either way.
- The map's bytes are read only for `== 1`; any other value blocks a cell, as in the source.
