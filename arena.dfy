/** The nodes a search creates, kept in an arena: every node that became the current node
    is appended to a sequence, and a node names its parent by its slot in that sequence
    instead of by a pointer. Parent links form a tree rooted at the start node, and the
    path to a node is read off by walking them. */
module Arena {
  import opened GridAdapter
  import opened Nodes

  function Here(n: Node): Cell {
    Cell(n.x, n.y)
  }

  /** n is a well-linked node for an arena `nodes` of which it may name the first `bound`
      slots as parent: it lies in the grid, and either it is the start node (no parent) or it
      is a walkable cell one step from its parent, reached with one more step than the parent. */
  ghost predicate LinkOk(grid: Grid, start: Node, nodes: seq<Node>, n: Node, bound: int) {
    && InBounds(grid, n.x, n.y)
    && match n.parent
       case None => n == start
       case Some(p) =>
         && p < bound && p < |nodes|
         && n.g == nodes[p].g + 1
         && Adjacent(Here(nodes[p]), Here(n))
         && Walkable(grid, n.x, n.y)
  }

  /** Every slot of the arena links to an earlier slot (or is the start node). */
  ghost predicate ArenaValid(grid: Grid, start: Node, nodes: seq<Node>) {
    forall i :: 0 <= i < |nodes| ==> LinkOk(grid, start, nodes, nodes[i], i)
  }

  /** A node waiting in a frontier: it links into the arena as it stands, and only the start
      node, pushed before anything was expanded, has no parent. */
  ghost predicate FrontierOk(grid: Grid, start: Node, nodes: seq<Node>, n: Node) {
    LinkOk(grid, start, nodes, n, |nodes|) && (n.parent.None? ==> nodes == [])
  }

  ghost predicate FrontierValid(grid: Grid, start: Node, nodes: seq<Node>, s: seq<Node>) {
    forall n :: n in s ==> FrontierOk(grid, start, nodes, n)
  }

  /** The start node as the search creates it. */
  ghost predicate StartOk(grid: Grid, start: Node) {
    InBounds(grid, start.x, start.y) && start.g == 0 && start.parent == None
  }

  /** The cells from the one after the start through nodes[i], in walking order. Parent
      links always point to earlier slots, so the path is no longer than the node's slot. */
  function PathTo(grid: Grid, start: Node, nodes: seq<Node>, i: int): (path: seq<Cell>)
    requires ArenaValid(grid, start, nodes) && 0 <= i < |nodes|
    ensures |path| <= i
    decreases i
  {
    assert LinkOk(grid, start, nodes, nodes[i], i);
    match nodes[i].parent
    case None => []
    case Some(p) => PathTo(grid, start, nodes, p) + [Here(nodes[i])]
  }

  /** A walk from `from`: every cell walkable, each one a step from the one before. */
  ghost predicate IsWalk(grid: Grid, from: Cell, path: seq<Cell>) {
    && (forall k :: 0 <= k < |path| ==> Walkable(grid, path[k].x, path[k].y))
    && (forall k :: 0 < k < |path| ==> Adjacent(path[k - 1], path[k]))
    && (|path| > 0 ==> Adjacent(from, path[0]))
  }

  /** No walk from `from` ever enters `to`, and `to` is not `from` itself. */
  ghost predicate Unreachable(grid: Grid, from: Cell, to: Cell) {
    from != to && forall path :: IsWalk(grid, from, path) ==> to !in path
  }

  /** The map slots (`x + y * width`) of the path to nodes[i], in walking order: one per
      parent link, so exactly g of them. This is the walk of PathTo again, but producing the
      integers the source pushes at line 144 rather than cells: the buffer contracts speak of
      it, the walk contracts of PathTo, and PathSlotsAreCells ties the two together. */
  function PathSlots(grid: Grid, start: Node, nodes: seq<Node>, i: int): (r: seq<int>)
    requires WellFormed(grid) && StartOk(grid, start) && ArenaValid(grid, start, nodes) && 0 <= i < |nodes|
    ensures |r| == nodes[i].g
    decreases i
  {
    assert LinkOk(grid, start, nodes, nodes[i], i);
    match nodes[i].parent
    case None => []
    case Some(p) => PathSlots(grid, start, nodes, p) + [Index(grid, nodes[i].x, nodes[i].y)]
  }

  /** g is the depth of a node in the parent tree: the path to it has exactly g cells. */
  lemma {:induction false} PathLength(grid: Grid, start: Node, nodes: seq<Node>, i: int)
    requires StartOk(grid, start) && ArenaValid(grid, start, nodes) && 0 <= i < |nodes|
    ensures |PathTo(grid, start, nodes, i)| == nodes[i].g
  {
    assert LinkOk(grid, start, nodes, nodes[i], i);
    match nodes[i].parent
    case None =>
    case Some(p) => PathLength(grid, start, nodes, p);
  }

  /** The path to a node is a walk from the start cell through walkable cells that ends on
      the node's own cell (an empty path belongs to a node on the start cell). */
  lemma {:induction false} PathIsWalk(grid: Grid, start: Node, nodes: seq<Node>, i: int)
    requires StartOk(grid, start) && ArenaValid(grid, start, nodes) && 0 <= i < |nodes|
    ensures var path := PathTo(grid, start, nodes, i);
      && IsWalk(grid, Here(start), path)
      && (path == [] ==> Here(nodes[i]) == Here(start))
      && (path != [] ==> path[|path| - 1] == Here(nodes[i]))
  {
    assert LinkOk(grid, start, nodes, nodes[i], i);
    match nodes[i].parent
    case None =>
    case Some(p) =>
      PathIsWalk(grid, start, nodes, p);
      var before := PathTo(grid, start, nodes, p);
      var path := before + [Here(nodes[i])];
      assert path == PathTo(grid, start, nodes, i);
      forall k | 0 < k < |path|
        ensures Adjacent(path[k - 1], path[k])
      {
        if k < |before| {
          assert path[k - 1] == before[k - 1] && path[k] == before[k];
        }
      }
      forall k | 0 <= k < |path|
        ensures Walkable(grid, path[k].x, path[k].y)
      {
        if k < |before| {
          assert path[k] == before[k];
        }
      }
  }

  /** Appending a node that links into the arena keeps the arena well linked, and keeps every
      waiting node (none of them the start node) well linked to the larger arena. */
  lemma ArenaPush(grid: Grid, start: Node, nodes: seq<Node>, n: Node, waiting: seq<Node>)
    requires ArenaValid(grid, start, nodes) && FrontierOk(grid, start, nodes, n)
    requires FrontierValid(grid, start, nodes, waiting) && (nodes == [] ==> waiting == [])
    ensures ArenaValid(grid, start, nodes + [n])
    ensures FrontierValid(grid, start, nodes + [n], waiting)
  {
    var arena := nodes + [n];
    forall i | 0 <= i < |arena|
      ensures LinkOk(grid, start, arena, arena[i], i)
    {
      if i < |nodes| {
        assert LinkOk(grid, start, nodes, nodes[i], i);
      }
    }
    forall m | m in waiting
      ensures FrontierOk(grid, start, arena, m)
    {
      assert FrontierOk(grid, start, nodes, m);
    }
  }

  /** A start cell with no walkable neighbour is the only cell the search can ever stand on:
      every node of the arena is the start node itself. */
  lemma {:induction false} IsolatedStart(grid: Grid, start: Node, nodes: seq<Node>, i: int)
    requires ArenaValid(grid, start, nodes) && 0 <= i < |nodes|
    requires forall c :: Adjacent(Here(start), c) ==> !Walkable(grid, c.x, c.y)
    ensures nodes[i] == start
  {
    assert LinkOk(grid, start, nodes, nodes[i], i);
    match nodes[i].parent
    case None =>
    case Some(p) =>
      IsolatedStart(grid, start, nodes, p);
  }

  /** One parent link: the path to a node with a parent is the path to the parent and one
      more slot, that of the node itself. */
  lemma PathSlotsStep(grid: Grid, start: Node, nodes: seq<Node>, i: int)
    requires WellFormed(grid) && StartOk(grid, start) && ArenaValid(grid, start, nodes) && 0 <= i < |nodes|
    requires nodes[i].parent.Some?
    ensures var p := nodes[i].parent.value;
      && p < i && nodes[i].g == nodes[p].g + 1 && InBounds(grid, nodes[i].x, nodes[i].y)
      && PathSlots(grid, start, nodes, i) == PathSlots(grid, start, nodes, p) + [Index(grid, nodes[i].x, nodes[i].y)]
  {
    assert LinkOk(grid, start, nodes, nodes[i], i);
  }

  /** Walking one parent link back from a node whose slots are a prefix of `slots`: the
      node's own slot is the last of that prefix, and the parent's slots are the prefix one
      shorter. */
  lemma PathSlotsPrefix(grid: Grid, start: Node, nodes: seq<Node>, i: int, slots: seq<int>)
    requires WellFormed(grid) && StartOk(grid, start) && ArenaValid(grid, start, nodes) && 0 <= i < |nodes|
    requires nodes[i].parent.Some? && nodes[i].g <= |slots|
    requires PathSlots(grid, start, nodes, i) == slots[..nodes[i].g]
    ensures var p := nodes[i].parent.value;
      && p < i && nodes[i].g == nodes[p].g + 1 && InBounds(grid, nodes[i].x, nodes[i].y)
      && slots[nodes[i].g - 1] == Index(grid, nodes[i].x, nodes[i].y)
      && PathSlots(grid, start, nodes, p) == slots[..nodes[p].g]
  {
    PathSlotsStep(grid, start, nodes, i);
    var p, g := nodes[i].parent.value, nodes[i].g;
    assert slots[..g][g - 1] == slots[g - 1];
    assert slots[..g][..g - 1] == slots[..g - 1];
  }

  /** The slots are those of the path's cells, one for one. */
  lemma {:induction false} PathSlotsAreCells(grid: Grid, start: Node, nodes: seq<Node>, i: int)
    requires WellFormed(grid) && StartOk(grid, start) && ArenaValid(grid, start, nodes) && 0 <= i < |nodes|
    ensures var path, slots := PathTo(grid, start, nodes, i), PathSlots(grid, start, nodes, i);
      && |path| == |slots|
      && forall k :: 0 <= k < |slots| ==> InBounds(grid, path[k].x, path[k].y) && slots[k] == Index(grid, path[k].x, path[k].y)
  {
    assert LinkOk(grid, start, nodes, nodes[i], i);
    match nodes[i].parent
    case None =>
    case Some(p) =>
      PathSlotsAreCells(grid, start, nodes, p);
      var path, slots := PathTo(grid, start, nodes, p), PathSlots(grid, start, nodes, p);
      assert PathTo(grid, start, nodes, i) == path + [Here(nodes[i])];
      assert PathSlots(grid, start, nodes, i) == slots + [Index(grid, nodes[i].x, nodes[i].y)];
  }
}
