/** The two-part frontier and the expansion of the current node, as functions on values:
    the shortcut stack `closestNodes`, the priority queue `openNodes`, and the `visited`
    table that keeps a cell from entering the queue twice. The class in astar.dfy is proved
    to change its state exactly as these functions say. */
module Expansion {
  import opened GridAdapter
  import opened Nodes
  import opened Arena

  /** The frontier state. The stack's top is its last entry; the queue is unordered (its
      top is any entry satisfying IsTop). `enqueued` is a log, kept only for the proofs, of
      the cells pushed onto the queue, in order. */
  datatype Frontier = Frontier(stack: seq<Node>, open: seq<Node>, visited: seq<bool>, enqueued: seq<int>)

  /** The node checkNeighbour creates for cell (x, y): one step more than the current node,
      its own Manhattan distance to the target, and the current node as parent. Along a step
      from a node whose h is its own distance to the target, f stays the same when the step
      goes closer to the target and grows by two otherwise: the Manhattan heuristic is
      consistent. */
  function Neighbour(cur: Node, curIndex: nat, x: int, y: int, target: Cell): (n: Node)
    ensures cur.h == Distance(cur.x, cur.y, target.x, target.y) && Adjacent(Here(cur), Cell(x, y)) ==>
      && (n.h < cur.h ==> F(n) == F(cur))
      && (n.h >= cur.h ==> F(n) == F(cur) + 2)
  {
    Node(x, y, cur.g + 1, Distance(x, y, target.x, target.y), Some(curIndex))
  }

  /** checkNeighbour: a neighbour closer to the target than the current node goes onto the
      stack, without any duplicate test; any other goes onto the queue, and is marked
      visited, only if its cell is not visited yet. */
  function Check(f: Frontier, grid: Grid, cur: Node, curIndex: nat, x: int, y: int, target: Cell): (r: Frontier)
    requires WellFormed(grid) && InBounds(grid, x, y) && |f.visited| == |grid.cells|
    ensures |r.visited| == |f.visited|
    ensures |f.stack| <= |r.stack| && |f.open| <= |r.open|
    ensures |r.stack| + |r.open| <= |f.stack| + |f.open| + 1
  {
    var n := Neighbour(cur, curIndex, x, y, target);
    var i := Index(grid, x, y);
    if n.h < cur.h then
      f.(stack := f.stack + [n])
    else if !f.visited[i] then
      f.(open := f.open + [n], visited := f.visited[i := true], enqueued := f.enqueued + [i])
    else
      f
  }

  /** A neighbour the expansion looks at: inside the grid, walkable, and not closed. */
  predicate Passable(grid: Grid, closed: seq<bool>, x: int, y: int)
    requires |closed| == |grid.cells|
  {
    Walkable(grid, x, y) && !closed[Index(grid, x, y)]
  }

  /** One of the four guarded checkNeighbour calls of an expansion. */
  function Visit(f: Frontier, grid: Grid, closed: seq<bool>, cur: Node, curIndex: nat, x: int, y: int, target: Cell): (r: Frontier)
    requires WellFormed(grid) && |f.visited| == |grid.cells| && |closed| == |grid.cells|
    ensures |r.visited| == |f.visited|
    ensures |f.stack| <= |r.stack| && |f.open| <= |r.open|
    ensures |r.stack| + |r.open| <= |f.stack| + |f.open| + 1
  {
    if Passable(grid, closed, x, y) then Check(f, grid, cur, curIndex, x, y, target) else f
  }

  /** The cells an expansion looks at, in the order the source checks them: left, right,
      up, down. */
  function NeighbourCells(cur: Node): (cells: seq<Cell>)
    ensures forall k :: 0 <= k < |cells| ==> Adjacent(Here(cur), cells[k])
  {
    [Cell(cur.x - 1, cur.y), Cell(cur.x + 1, cur.y), Cell(cur.x, cur.y - 1), Cell(cur.x, cur.y + 1)]
  }

  /** The guarded checks of `cells`, one after the other. */
  function VisitAll(f: Frontier, grid: Grid, closed: seq<bool>, cur: Node, curIndex: nat, cells: seq<Cell>, target: Cell): (r: Frontier)
    requires WellFormed(grid) && |f.visited| == |grid.cells| && |closed| == |grid.cells|
    ensures |r.visited| == |f.visited|
    ensures |f.stack| <= |r.stack| && |f.open| <= |r.open|
    ensures |r.stack| + |r.open| <= |f.stack| + |f.open| + |cells|
    decreases |cells|
  {
    if cells == [] then f
    else VisitAll(Visit(f, grid, closed, cur, curIndex, cells[0].x, cells[0].y, target), grid, closed, cur, curIndex, cells[1..], target)
  }

  /** The expansion of the current node: the guarded checks of its four neighbours. It
      removes nothing from either frontier and pushes at most four nodes in all. */
  function Expand(f: Frontier, grid: Grid, closed: seq<bool>, cur: Node, curIndex: nat, target: Cell): (r: Frontier)
    requires WellFormed(grid) && |f.visited| == |grid.cells| && |closed| == |grid.cells|
    ensures |r.visited| == |f.visited|
    ensures |f.stack| <= |r.stack| && |f.open| <= |r.open|
    ensures |r.stack| + |r.open| <= |f.stack| + |f.open| + 4
  {
    VisitAll(f, grid, closed, cur, curIndex, NeighbourCells(cur), target)
  }

  /** An expansion is the four guarded checks in the source's order. */
  lemma ExpandIsFourVisits(f: Frontier, grid: Grid, closed: seq<bool>, cur: Node, curIndex: nat, target: Cell)
    requires WellFormed(grid) && |f.visited| == |grid.cells| && |closed| == |grid.cells|
    ensures var f1 := Visit(f, grid, closed, cur, curIndex, cur.x - 1, cur.y, target);
      var f2 := Visit(f1, grid, closed, cur, curIndex, cur.x + 1, cur.y, target);
      var f3 := Visit(f2, grid, closed, cur, curIndex, cur.x, cur.y - 1, target);
      Expand(f, grid, closed, cur, curIndex, target) == Visit(f3, grid, closed, cur, curIndex, cur.x, cur.y + 1, target)
  {
    var cells := NeighbourCells(cur);
    var f1 := Visit(f, grid, closed, cur, curIndex, cur.x - 1, cur.y, target);
    var f2 := Visit(f1, grid, closed, cur, curIndex, cur.x + 1, cur.y, target);
    var f3 := Visit(f2, grid, closed, cur, curIndex, cur.x, cur.y - 1, target);
    var f4 := Visit(f3, grid, closed, cur, curIndex, cur.x, cur.y + 1, target);
    assert VisitAll(f4, grid, closed, cur, curIndex, cells[4..], target) == f4;
    assert VisitAll(f3, grid, closed, cur, curIndex, cells[3..], target) == f4;
    assert VisitAll(f2, grid, closed, cur, curIndex, cells[2..], target) == f4;
    assert VisitAll(f1, grid, closed, cur, curIndex, cells[1..], target) == f4;
  }

  // ---------------------------------------------------------------------------------------
  // What an expansion adds

  /** n is a node the expansion of `cur` may create: an in-bounds, walkable, not-closed cell
      one step from `cur`, built as checkNeighbour builds it. */
  ghost predicate Added(grid: Grid, closed: seq<bool>, cur: Node, curIndex: nat, target: Cell, n: Node)
    requires |closed| == |grid.cells|
  {
    && Passable(grid, closed, n.x, n.y)
    && Adjacent(Here(cur), Here(n))
    && n == Neighbour(cur, curIndex, n.x, n.y, target)
  }

  /** `after` is `before` with added nodes pushed on its end, all of them closer to the
      target than `cur` (when `closer`) or all of them not closer (otherwise). */
  ghost predicate Grows(before: seq<Node>, after: seq<Node>, grid: Grid, closed: seq<bool>, cur: Node, curIndex: nat, target: Cell, closer: bool)
    requires |closed| == |grid.cells|
  {
    && |before| <= |after|
    && after[..|before|] == before
    && forall k :: |before| <= k < |after| ==>
         Added(grid, closed, cur, curIndex, target, after[k]) && (after[k].h < cur.h <==> closer)
  }

  lemma GrowsTransitive(a: seq<Node>, b: seq<Node>, c: seq<Node>, grid: Grid, closed: seq<bool>, cur: Node, curIndex: nat, target: Cell, closer: bool)
    requires |closed| == |grid.cells|
    requires Grows(a, b, grid, closed, cur, curIndex, target, closer)
    requires Grows(b, c, grid, closed, cur, curIndex, target, closer)
    ensures Grows(a, c, grid, closed, cur, curIndex, target, closer)
  {
    forall k | |a| <= k < |c|
      ensures Added(grid, closed, cur, curIndex, target, c[k]) && (c[k].h < cur.h <==> closer)
    {
      if k < |b| {
        assert c[k] == c[..|b|][k] == b[k];
      }
    }
    assert c[..|a|] == c[..|b|][..|a|];
  }

  /** One guarded check pushes only added nodes: closer ones onto the stack, the others onto
      the queue. */
  lemma VisitGrows(f: Frontier, grid: Grid, closed: seq<bool>, cur: Node, curIndex: nat, x: int, y: int, target: Cell)
    requires WellFormed(grid) && |f.visited| == |grid.cells| && |closed| == |grid.cells|
    requires Adjacent(Here(cur), Cell(x, y))
    ensures var r := Visit(f, grid, closed, cur, curIndex, x, y, target);
      && Grows(f.stack, r.stack, grid, closed, cur, curIndex, target, true)
      && Grows(f.open, r.open, grid, closed, cur, curIndex, target, false)
  {
    var r := Visit(f, grid, closed, cur, curIndex, x, y, target);
    assert r.stack[..|f.stack|] == f.stack;
    assert r.open[..|f.open|] == f.open;
  }

  lemma {:induction false} VisitAllGrows(f: Frontier, grid: Grid, closed: seq<bool>, cur: Node, curIndex: nat, cells: seq<Cell>, target: Cell)
    requires WellFormed(grid) && |f.visited| == |grid.cells| && |closed| == |grid.cells|
    requires forall k :: 0 <= k < |cells| ==> Adjacent(Here(cur), cells[k])
    ensures var r := VisitAll(f, grid, closed, cur, curIndex, cells, target);
      && Grows(f.stack, r.stack, grid, closed, cur, curIndex, target, true)
      && Grows(f.open, r.open, grid, closed, cur, curIndex, target, false)
    decreases |cells|
  {
    var r := VisitAll(f, grid, closed, cur, curIndex, cells, target);
    if cells == [] {
      assert f.stack[..|f.stack|] == f.stack && f.open[..|f.open|] == f.open;
    } else {
      var f1 := Visit(f, grid, closed, cur, curIndex, cells[0].x, cells[0].y, target);
      VisitGrows(f, grid, closed, cur, curIndex, cells[0].x, cells[0].y, target);
      VisitAllGrows(f1, grid, closed, cur, curIndex, cells[1..], target);
      GrowsTransitive(f.stack, f1.stack, r.stack, grid, closed, cur, curIndex, target, true);
      GrowsTransitive(f.open, f1.open, r.open, grid, closed, cur, curIndex, target, false);
    }
  }

  /** An expansion adds only orthogonal neighbours of the current node that are in bounds,
      walkable and not closed, each with g one more than the current node's and the current
      node as parent; those strictly closer to the target go onto the stack, the rest onto the
      queue, and nothing already waiting is removed or reordered. */
  lemma ExpandAddsOnlyOpenNeighbours(f: Frontier, grid: Grid, closed: seq<bool>, cur: Node, curIndex: nat, target: Cell)
    requires WellFormed(grid) && |f.visited| == |grid.cells| && |closed| == |grid.cells|
    ensures var r := Expand(f, grid, closed, cur, curIndex, target);
      && Grows(f.stack, r.stack, grid, closed, cur, curIndex, target, true)
      && Grows(f.open, r.open, grid, closed, cur, curIndex, target, false)
  {
    VisitAllGrows(f, grid, closed, cur, curIndex, NeighbourCells(cur), target);
  }

  /** Nodes added by expanding the arena's node `curIndex` link into that arena, so an
      expansion keeps both frontiers well linked. */
  lemma ExpandKeepsFrontierValid(f: Frontier, grid: Grid, closed: seq<bool>, start: Node, nodes: seq<Node>, curIndex: nat, target: Cell)
    requires WellFormed(grid) && |f.visited| == |grid.cells| && |closed| == |grid.cells|
    requires curIndex < |nodes|
    requires FrontierValid(grid, start, nodes, f.stack) && FrontierValid(grid, start, nodes, f.open)
    ensures var r := Expand(f, grid, closed, nodes[curIndex], curIndex, target);
      FrontierValid(grid, start, nodes, r.stack) && FrontierValid(grid, start, nodes, r.open)
  {
    var cur := nodes[curIndex];
    var r := Expand(f, grid, closed, cur, curIndex, target);
    ExpandAddsOnlyOpenNeighbours(f, grid, closed, cur, curIndex, target);
    forall n | n in r.stack
      ensures FrontierOk(grid, start, nodes, n)
    {
      var k :| 0 <= k < |r.stack| && r.stack[k] == n;
      if k < |f.stack| {
        assert n == r.stack[..|f.stack|][k];
      }
    }
    forall n | n in r.open
      ensures FrontierOk(grid, start, nodes, n)
    {
      var k :| 0 <= k < |r.open| && r.open[k] == n;
      if k < |f.open| {
        assert n == r.open[..|f.open|][k];
      }
    }
  }

  // ---------------------------------------------------------------------------------------
  // What an expansion does not miss

  /** Cell c has been dealt with by a check from `cur`: if it is passable, its node is on the
      stack (when closer to the target than `cur`) or its cell is marked visited (otherwise). */
  ghost predicate Covered(f: Frontier, grid: Grid, closed: seq<bool>, cur: Node, curIndex: nat, c: Cell, target: Cell)
    requires |closed| == |grid.cells| && |f.visited| == |grid.cells|
  {
    Passable(grid, closed, c.x, c.y) ==>
      if Distance(c.x, c.y, target.x, target.y) < cur.h then Neighbour(cur, curIndex, c.x, c.y, target) in f.stack
      else f.visited[Index(grid, c.x, c.y)]
  }

  /** A check only pushes and only sets visited flags, so whatever was covered stays covered,
      and the checked cell itself becomes covered. */
  lemma VisitCovers(f: Frontier, grid: Grid, closed: seq<bool>, cur: Node, curIndex: nat, x: int, y: int, c: Cell, target: Cell)
    requires WellFormed(grid) && |f.visited| == |grid.cells| && |closed| == |grid.cells|
    requires Covered(f, grid, closed, cur, curIndex, c, target) || c == Cell(x, y)
    ensures Covered(Visit(f, grid, closed, cur, curIndex, x, y, target), grid, closed, cur, curIndex, c, target)
  {
  }

  lemma {:induction false} VisitAllCovers(f: Frontier, grid: Grid, closed: seq<bool>, cur: Node, curIndex: nat, cells: seq<Cell>, target: Cell)
    requires WellFormed(grid) && |f.visited| == |grid.cells| && |closed| == |grid.cells|
    ensures forall c :: c in cells ==> Covered(VisitAll(f, grid, closed, cur, curIndex, cells, target), grid, closed, cur, curIndex, c, target)
    decreases |cells|
  {
    if cells != [] {
      var f1 := Visit(f, grid, closed, cur, curIndex, cells[0].x, cells[0].y, target);
      VisitAllCovers(f1, grid, closed, cur, curIndex, cells[1..], target);
      VisitCovers(f, grid, closed, cur, curIndex, cells[0].x, cells[0].y, cells[0], target);
      VisitAllKeepsCovered(f1, grid, closed, cur, curIndex, cells[1..], cells[0], target);
    }
  }

  lemma {:induction false} VisitAllKeepsCovered(f: Frontier, grid: Grid, closed: seq<bool>, cur: Node, curIndex: nat, cells: seq<Cell>, c: Cell, target: Cell)
    requires WellFormed(grid) && |f.visited| == |grid.cells| && |closed| == |grid.cells|
    requires Covered(f, grid, closed, cur, curIndex, c, target)
    ensures Covered(VisitAll(f, grid, closed, cur, curIndex, cells, target), grid, closed, cur, curIndex, c, target)
    decreases |cells|
  {
    if cells != [] {
      var f1 := Visit(f, grid, closed, cur, curIndex, cells[0].x, cells[0].y, target);
      VisitCovers(f, grid, closed, cur, curIndex, cells[0].x, cells[0].y, c, target);
      VisitAllKeepsCovered(f1, grid, closed, cur, curIndex, cells[1..], c, target);
    }
  }

  /** An expansion misses none of the four neighbours: each one that is in bounds, walkable
      and not closed ends with its node on the stack, when it is closer to the target than the
      current node, or with its cell marked visited (pushed onto the queue now or earlier). */
  lemma ExpandCoversNeighbours(f: Frontier, grid: Grid, closed: seq<bool>, cur: Node, curIndex: nat, target: Cell)
    requires WellFormed(grid) && |f.visited| == |grid.cells| && |closed| == |grid.cells|
    ensures forall c :: c in NeighbourCells(cur) ==>
      Covered(Expand(f, grid, closed, cur, curIndex, target), grid, closed, cur, curIndex, c, target)
  {
    VisitAllCovers(f, grid, closed, cur, curIndex, NeighbourCells(cur), target);
  }

  // ---------------------------------------------------------------------------------------
  // The queue takes each cell at most once

  predicate NoDuplicates(s: seq<int>) {
    forall j, k :: 0 <= j < k < |s| ==> s[j] != s[k]
  }

  /** The visited table holds exactly the cells ever pushed onto the queue, and no cell was
      pushed twice. */
  ghost predicate QueuedOnce(enqueued: seq<int>, visited: seq<bool>) {
    && NoDuplicates(enqueued)
    && (forall i :: 0 <= i < |visited| ==> (visited[i] <==> i in enqueued))
    && (forall i :: i in enqueued ==> 0 <= i < |visited|)
  }

  lemma CheckQueuesOnce(f: Frontier, grid: Grid, cur: Node, curIndex: nat, x: int, y: int, target: Cell)
    requires WellFormed(grid) && InBounds(grid, x, y) && |f.visited| == |grid.cells|
    requires QueuedOnce(f.enqueued, f.visited)
    ensures var r := Check(f, grid, cur, curIndex, x, y, target);
      QueuedOnce(r.enqueued, r.visited)
  {
  }

  lemma VisitQueuesOnce(f: Frontier, grid: Grid, closed: seq<bool>, cur: Node, curIndex: nat, x: int, y: int, target: Cell)
    requires WellFormed(grid) && |f.visited| == |grid.cells| && |closed| == |grid.cells|
    requires QueuedOnce(f.enqueued, f.visited)
    ensures var r := Visit(f, grid, closed, cur, curIndex, x, y, target);
      QueuedOnce(r.enqueued, r.visited)
  {
    if Passable(grid, closed, x, y) {
      CheckQueuesOnce(f, grid, cur, curIndex, x, y, target);
    }
  }

  lemma {:induction false} VisitAllQueuesOnce(f: Frontier, grid: Grid, closed: seq<bool>, cur: Node, curIndex: nat, cells: seq<Cell>, target: Cell)
    requires WellFormed(grid) && |f.visited| == |grid.cells| && |closed| == |grid.cells|
    requires QueuedOnce(f.enqueued, f.visited)
    ensures var r := VisitAll(f, grid, closed, cur, curIndex, cells, target);
      QueuedOnce(r.enqueued, r.visited)
    decreases |cells|
  {
    if cells != [] {
      var f1 := Visit(f, grid, closed, cur, curIndex, cells[0].x, cells[0].y, target);
      VisitQueuesOnce(f, grid, closed, cur, curIndex, cells[0].x, cells[0].y, target);
      VisitAllQueuesOnce(f1, grid, closed, cur, curIndex, cells[1..], target);
    }
  }

  /** Each cell enters the open queue at most once, however the expansions go. */
  lemma ExpandQueuesOnce(f: Frontier, grid: Grid, closed: seq<bool>, cur: Node, curIndex: nat, target: Cell)
    requires WellFormed(grid) && |f.visited| == |grid.cells| && |closed| == |grid.cells|
    requires QueuedOnce(f.enqueued, f.visited)
    ensures var r := Expand(f, grid, closed, cur, curIndex, target);
      QueuedOnce(r.enqueued, r.visited)
  {
    VisitAllQueuesOnce(f, grid, closed, cur, curIndex, NeighbourCells(cur), target);
  }

  /** The queue itself holds each cell at most once: every entry's cell is marked visited,
      and no two entries share a cell. */
  ghost predicate QueueDistinct(grid: Grid, open: seq<Node>, visited: seq<bool>) {
    && WellFormed(grid) && |visited| == |grid.cells|
    && (forall n :: n in open ==> InBounds(grid, n.x, n.y) && visited[Index(grid, n.x, n.y)])
    && (forall j, k :: 0 <= j < k < |open| ==> Here(open[j]) != Here(open[k]))
  }

  lemma CheckKeepsQueueDistinct(f: Frontier, grid: Grid, cur: Node, curIndex: nat, x: int, y: int, target: Cell)
    requires WellFormed(grid) && InBounds(grid, x, y) && QueueDistinct(grid, f.open, f.visited)
    ensures var r := Check(f, grid, cur, curIndex, x, y, target);
      QueueDistinct(grid, r.open, r.visited)
  {
    var r := Check(f, grid, cur, curIndex, x, y, target);
    var i := Index(grid, x, y);
    if r.open != f.open {
      assert r.open == f.open + [Neighbour(cur, curIndex, x, y, target)] && !f.visited[i];
      forall j | 0 <= j < |f.open|
        ensures Here(f.open[j]) != Cell(x, y)
      {
        assert f.visited[Index(grid, f.open[j].x, f.open[j].y)];
      }
      forall n | n in r.open
        ensures InBounds(grid, n.x, n.y) && r.visited[Index(grid, n.x, n.y)]
      {
        if n in f.open {
          IndexInjective(grid, Here(n), Cell(x, y));
        }
      }
    }
  }

  lemma VisitKeepsQueueDistinct(f: Frontier, grid: Grid, closed: seq<bool>, cur: Node, curIndex: nat, x: int, y: int, target: Cell)
    requires |closed| == |grid.cells| && QueueDistinct(grid, f.open, f.visited)
    ensures var r := Visit(f, grid, closed, cur, curIndex, x, y, target);
      QueueDistinct(grid, r.open, r.visited)
  {
    if Passable(grid, closed, x, y) {
      CheckKeepsQueueDistinct(f, grid, cur, curIndex, x, y, target);
    }
  }

  lemma {:induction false} VisitAllKeepsQueueDistinct(f: Frontier, grid: Grid, closed: seq<bool>, cur: Node, curIndex: nat, cells: seq<Cell>, target: Cell)
    requires |closed| == |grid.cells| && QueueDistinct(grid, f.open, f.visited)
    ensures var r := VisitAll(f, grid, closed, cur, curIndex, cells, target);
      QueueDistinct(grid, r.open, r.visited)
    decreases |cells|
  {
    if cells != [] {
      var f1 := Visit(f, grid, closed, cur, curIndex, cells[0].x, cells[0].y, target);
      VisitKeepsQueueDistinct(f, grid, closed, cur, curIndex, cells[0].x, cells[0].y, target);
      VisitAllKeepsQueueDistinct(f1, grid, closed, cur, curIndex, cells[1..], target);
    }
  }

  /** An expansion never puts a second node for a cell into the queue. */
  lemma ExpandKeepsQueueDistinct(f: Frontier, grid: Grid, closed: seq<bool>, cur: Node, curIndex: nat, target: Cell)
    requires |closed| == |grid.cells| && QueueDistinct(grid, f.open, f.visited)
    ensures var r := Expand(f, grid, closed, cur, curIndex, target);
      QueueDistinct(grid, r.open, r.visited)
  {
    VisitAllKeepsQueueDistinct(f, grid, closed, cur, curIndex, NeighbourCells(cur), target);
  }

  /** Taking any one entry out of the queue keeps its cells distinct and visited. */
  lemma RemoveKeepsQueueDistinct(grid: Grid, f: Frontier, k: int)
    requires QueueDistinct(grid, f.open, f.visited) && 0 <= k < |f.open|
    ensures QueueDistinct(grid, f.open[..k] + f.open[k + 1..], f.visited)
  {
    var q := f.open[..k] + f.open[k + 1..];
    forall j | 0 <= j < |q|
      ensures q[j] == f.open[if j < k then j else j + 1]
    {
    }
    forall n | n in q
      ensures n in f.open
    {
    }
  }

  // ---------------------------------------------------------------------------------------
  // Termination: the search loop decreases (unvisited cells + queue length, StackWeight)

  function CountFalse(s: seq<bool>): nat {
    if s == [] then 0 else CountFalse(s[..|s| - 1]) + (if s[|s| - 1] then 0 else 1)
  }

  /** Marking an unvisited cell visited leaves one unvisited cell fewer. */
  lemma {:induction false} CountFalseMark(s: seq<bool>, i: int)
    requires 0 <= i < |s| && !s[i]
    ensures CountFalse(s[i := true]) + 1 == CountFalse(s)
  {
    var n := |s| - 1;
    if i == n {
      assert s[i := true][..n] == s[..n];
    } else {
      assert s[i := true][..n] == s[..n][i := true];
      CountFalseMark(s[..n], i);
    }
  }

  function Pow5(n: nat): (p: nat)
    ensures p >= 1
  {
    if n == 0 then 1 else 5 * Pow5(n - 1)
  }

  lemma {:induction false} Pow5Grows(a: nat, b: nat)
    requires a < b
    ensures 5 * Pow5(a) <= Pow5(b)
  {
    if a + 1 < b {
      Pow5Grows(a, b - 1);
    }
  }

  /** The sum of 5^h over the stack's entries. */
  function StackWeight(s: seq<Node>): nat {
    if s == [] then 0 else StackWeight(s[..|s| - 1]) + Pow5(s[|s| - 1].h)
  }

  /** One check trades an unvisited cell for a queue entry, or pushes onto the stack a node
      whose weight is at most a fifth of the current node's. */
  lemma CheckProgress(f: Frontier, grid: Grid, cur: Node, curIndex: nat, x: int, y: int, target: Cell)
    requires WellFormed(grid) && InBounds(grid, x, y) && |f.visited| == |grid.cells|
    ensures var r := Check(f, grid, cur, curIndex, x, y, target);
      && CountFalse(r.visited) + |r.open| == CountFalse(f.visited) + |f.open|
      && 5 * StackWeight(r.stack) <= 5 * StackWeight(f.stack) + Pow5(cur.h)
  {
    var n := Neighbour(cur, curIndex, x, y, target);
    var i := Index(grid, x, y);
    if n.h < cur.h {
      assert (f.stack + [n])[..|f.stack|] == f.stack;
      Pow5Grows(n.h, cur.h);
    } else if !f.visited[i] {
      CountFalseMark(f.visited, i);
    }
  }

  lemma VisitProgress(f: Frontier, grid: Grid, closed: seq<bool>, cur: Node, curIndex: nat, x: int, y: int, target: Cell)
    requires WellFormed(grid) && |f.visited| == |grid.cells| && |closed| == |grid.cells|
    ensures var r := Visit(f, grid, closed, cur, curIndex, x, y, target);
      && CountFalse(r.visited) + |r.open| == CountFalse(f.visited) + |f.open|
      && 5 * StackWeight(r.stack) <= 5 * StackWeight(f.stack) + Pow5(cur.h)
  {
    if Passable(grid, closed, x, y) {
      CheckProgress(f, grid, cur, curIndex, x, y, target);
    }
  }

  lemma {:induction false} VisitAllProgress(f: Frontier, grid: Grid, closed: seq<bool>, cur: Node, curIndex: nat, cells: seq<Cell>, target: Cell)
    requires WellFormed(grid) && |f.visited| == |grid.cells| && |closed| == |grid.cells|
    ensures var r := VisitAll(f, grid, closed, cur, curIndex, cells, target);
      && CountFalse(r.visited) + |r.open| == CountFalse(f.visited) + |f.open|
      && 5 * StackWeight(r.stack) <= 5 * StackWeight(f.stack) + |cells| * Pow5(cur.h)
    decreases |cells|
  {
    if cells != [] {
      var f1 := Visit(f, grid, closed, cur, curIndex, cells[0].x, cells[0].y, target);
      VisitProgress(f, grid, closed, cur, curIndex, cells[0].x, cells[0].y, target);
      VisitAllProgress(f1, grid, closed, cur, curIndex, cells[1..], target);
      assert |cells| * Pow5(cur.h) == (|cells| - 1) * Pow5(cur.h) + Pow5(cur.h);
    }
  }

  /** An expansion keeps (unvisited cells + queue length) and adds to the stack less weight
      than the current node's 5^h, the weight its own pop removed. */
  lemma ExpandProgress(f: Frontier, grid: Grid, closed: seq<bool>, cur: Node, curIndex: nat, target: Cell)
    requires WellFormed(grid) && |f.visited| == |grid.cells| && |closed| == |grid.cells|
    ensures var r := Expand(f, grid, closed, cur, curIndex, target);
      && CountFalse(r.visited) + |r.open| == CountFalse(f.visited) + |f.open|
      && StackWeight(r.stack) < StackWeight(f.stack) + Pow5(cur.h)
  {
    VisitAllProgress(f, grid, closed, cur, curIndex, NeighbourCells(cur), target);
  }

  /** Everything the search invariant needs about one expansion, in one place: the frontiers
      stay well linked, the queue keeps taking each cell at most once, and the termination
      measure moves as ExpandProgress says. */
  lemma ExpandKeepsSearchInvariant(f: Frontier, grid: Grid, closed: seq<bool>, start: Node, nodes: seq<Node>, curIndex: nat, target: Cell)
    requires WellFormed(grid) && |f.visited| == |grid.cells| && |closed| == |grid.cells|
    requires curIndex < |nodes|
    requires FrontierValid(grid, start, nodes, f.stack) && FrontierValid(grid, start, nodes, f.open)
    requires QueuedOnce(f.enqueued, f.visited) && QueueDistinct(grid, f.open, f.visited)
    ensures var r := Expand(f, grid, closed, nodes[curIndex], curIndex, target);
      && FrontierValid(grid, start, nodes, r.stack) && FrontierValid(grid, start, nodes, r.open)
      && QueuedOnce(r.enqueued, r.visited) && QueueDistinct(grid, r.open, r.visited)
      && CountFalse(r.visited) + |r.open| == CountFalse(f.visited) + |f.open|
      && StackWeight(r.stack) < StackWeight(f.stack) + Pow5(nodes[curIndex].h)
  {
    var cur := nodes[curIndex];
    ExpandKeepsFrontierValid(f, grid, closed, start, nodes, curIndex, target);
    ExpandQueuesOnce(f, grid, closed, cur, curIndex, target);
    ExpandKeepsQueueDistinct(f, grid, closed, cur, curIndex, target);
    ExpandProgress(f, grid, closed, cur, curIndex, target);
  }
}
