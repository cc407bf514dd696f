/** What the search has explored: a closed cell has had every walkable neighbour dealt with,
    and a visited cell is closed or still waiting in the open queue. Both facts survive each
    round of the search loop, so a search that runs out of nodes away from the target has
    closed every cell a walk from the start can reach, and none of them is the target. */
module Exploration {
  import opened GridAdapter
  import opened Nodes
  import opened Arena
  import opened Expansion

  ghost predicate HasNodeAt(s: seq<Node>, c: Cell) {
    exists n :: n in s && Here(n) == c
  }

  predicate IsClosed(grid: Grid, closed: seq<bool>, c: Cell) {
    WellFormed(grid) && InBounds(grid, c.x, c.y) && Index(grid, c.x, c.y) < |closed| && closed[Index(grid, c.x, c.y)]
  }

  predicate IsVisited(grid: Grid, f: Frontier, c: Cell) {
    WellFormed(grid) && InBounds(grid, c.x, c.y) && Index(grid, c.x, c.y) < |f.visited| && f.visited[Index(grid, c.x, c.y)]
  }

  /** A walkable cell the search has seen: closed, marked visited, or with a node on the
      stack. */
  ghost predicate Noted(grid: Grid, closed: seq<bool>, f: Frontier, d: Cell) {
    Walkable(grid, d.x, d.y) ==> IsClosed(grid, closed, d) || IsVisited(grid, f, d) || HasNodeAt(f.stack, d)
  }

  /** Every walkable neighbour of a closed cell has been seen. */
  ghost predicate ClosedNoted(grid: Grid, closed: seq<bool>, f: Frontier) {
    forall c, d :: IsClosed(grid, closed, c) && Adjacent(c, d) ==> Noted(grid, closed, f, d)
  }

  /** Every visited cell is closed or has a node in the open queue. */
  ghost predicate VisitedOpen(grid: Grid, closed: seq<bool>, f: Frontier) {
    forall d :: IsVisited(grid, f, d) ==> IsClosed(grid, closed, d) || HasNodeAt(f.open, d)
  }

  /** The invariant of the search loop about what it has explored. `begun` says that the
      start node has been expanded. */
  ghost predicate Explored(grid: Grid, closed: seq<bool>, f: Frontier, start: Cell, target: Cell, begun: bool) {
    && WellFormed(grid) && |closed| == |grid.cells| && |f.visited| == |grid.cells|
    && ClosedNoted(grid, closed, f)
    && VisitedOpen(grid, closed, f)
    && !IsClosed(grid, closed, target)
    && (begun ==> IsClosed(grid, closed, start))
  }

  /** r is f with nodes only added, flags only set, and a queue node for each newly
      visited cell. */
  ghost predicate Extends(grid: Grid, f: Frontier, r: Frontier) {
    && |r.visited| == |f.visited|
    && (forall n :: n in f.stack ==> n in r.stack)
    && (forall n :: n in f.open ==> n in r.open)
    && (forall i :: 0 <= i < |f.visited| && f.visited[i] ==> r.visited[i])
    && (forall d :: IsVisited(grid, r, d) && !IsVisited(grid, f, d) ==> HasNodeAt(r.open, d))
  }

  lemma ExtendsTransitive(grid: Grid, a: Frontier, b: Frontier, c: Frontier)
    requires Extends(grid, a, b) && Extends(grid, b, c)
    ensures Extends(grid, a, c)
  {
    forall d | IsVisited(grid, c, d) && !IsVisited(grid, a, d)
      ensures HasNodeAt(c.open, d)
    {
      if IsVisited(grid, b, d) {
        var n :| n in b.open && Here(n) == d;
        assert n in c.open;
      }
    }
  }

  /** checkNeighbour only pushes and sets flags, and the one cell it marks visited gets its
      node pushed onto the queue. */
  lemma CheckExtends(f: Frontier, grid: Grid, cur: Node, curIndex: nat, x: int, y: int, target: Cell)
    requires WellFormed(grid) && InBounds(grid, x, y) && |f.visited| == |grid.cells|
    ensures Extends(grid, f, Check(f, grid, cur, curIndex, x, y, target))
  {
    var r := Check(f, grid, cur, curIndex, x, y, target);
    var n := Neighbour(cur, curIndex, x, y, target);
    forall d | IsVisited(grid, r, d) && !IsVisited(grid, f, d)
      ensures HasNodeAt(r.open, d)
    {
      IndexInjective(grid, d, Cell(x, y));
      assert n in r.open && Here(n) == d;
    }
  }

  lemma VisitExtends(f: Frontier, grid: Grid, closed: seq<bool>, cur: Node, curIndex: nat, x: int, y: int, target: Cell)
    requires WellFormed(grid) && |f.visited| == |grid.cells| && |closed| == |grid.cells|
    ensures Extends(grid, f, Visit(f, grid, closed, cur, curIndex, x, y, target))
  {
    if Passable(grid, closed, x, y) {
      CheckExtends(f, grid, cur, curIndex, x, y, target);
    }
  }

  lemma {:induction false} VisitAllExtends(f: Frontier, grid: Grid, closed: seq<bool>, cur: Node, curIndex: nat, cells: seq<Cell>, target: Cell)
    requires WellFormed(grid) && |f.visited| == |grid.cells| && |closed| == |grid.cells|
    ensures Extends(grid, f, VisitAll(f, grid, closed, cur, curIndex, cells, target))
    decreases |cells|
  {
    if cells != [] {
      var f1 := Visit(f, grid, closed, cur, curIndex, cells[0].x, cells[0].y, target);
      VisitExtends(f, grid, closed, cur, curIndex, cells[0].x, cells[0].y, target);
      VisitAllExtends(f1, grid, closed, cur, curIndex, cells[1..], target);
      ExtendsTransitive(grid, f, f1, VisitAll(f1, grid, closed, cur, curIndex, cells[1..], target));
    }
  }

  /** An expansion keeps every waiting node and every visited flag, and each cell it marks
      visited has its node in the open queue. */
  lemma ExpandExtends(f: Frontier, grid: Grid, closed: seq<bool>, cur: Node, curIndex: nat, target: Cell)
    requires WellFormed(grid) && |f.visited| == |grid.cells| && |closed| == |grid.cells|
    ensures Extends(grid, f, Expand(f, grid, closed, cur, curIndex, target))
  {
    VisitAllExtends(f, grid, closed, cur, curIndex, NeighbourCells(cur), target);
  }

  /** Before the first round nothing is closed or visited, and Explored holds trivially. */
  lemma NothingExplored(grid: Grid, closed: seq<bool>, f: Frontier, start: Cell, target: Cell)
    requires WellFormed(grid) && |closed| == |grid.cells| && |f.visited| == |grid.cells|
    requires forall i :: 0 <= i < |closed| ==> !closed[i]
    requires forall i :: 0 <= i < |f.visited| ==> !f.visited[i]
    ensures Explored(grid, closed, f, start, target, false)
  {
  }

  // ---------------------------------------------------------------------------------------
  // One round of the search loop

  /** f1 is f0 with `cur` popped: the stack's top while the stack is not empty, otherwise the
      queue entry at k. */
  ghost predicate Popped(f0: Frontier, f1: Frontier, cur: Node, k: int) {
    && f1.visited == f0.visited
    && (|| (f1.stack + [cur] == f0.stack && f1.open == f0.open)
        || (f1.stack == f0.stack && 0 <= k < |f0.open| && f0.open[k] == cur && f1.open == f0.open[..k] + f0.open[k + 1..]))
  }

  /** A pop loses no waiting node other than the one it takes. */
  lemma PopKeepsOthers(f0: Frontier, f1: Frontier, cur: Node, k: int)
    requires Popped(f0, f1, cur, k)
    ensures forall n :: n in f0.stack ==> n in f1.stack || n == cur
    ensures forall n :: n in f0.open ==> n in f1.open || n == cur
  {
    if f1.stack + [cur] == f0.stack && f1.open == f0.open {
      forall n | n in f0.stack
        ensures n in f1.stack || n == cur
      {
        var j :| 0 <= j < |f0.stack| && f0.stack[j] == n;
        if j < |f1.stack| {
          assert n == (f1.stack + [cur])[j];
        }
      }
    } else {
      forall n | n in f0.open
        ensures n in f1.open || n == cur
      {
        var j :| 0 <= j < |f0.open| && f0.open[j] == n;
        if j < k {
          assert n == f0.open[..k][j];
        } else if k < j {
          assert n == f0.open[k + 1..][j - k - 1];
        }
      }
    }
  }

  /** A pop keeps the arena and both frontiers well linked once the popped node joins the
      arena, and keeps the queue's cells distinct and visited. */
  lemma PopKeepsLinks(grid: Grid, start: Node, nodes: seq<Node>, f0: Frontier, f1: Frontier, cur: Node, k: int)
    requires ArenaValid(grid, start, nodes)
    requires FrontierValid(grid, start, nodes, f0.stack) && FrontierValid(grid, start, nodes, f0.open)
    requires QueueDistinct(grid, f0.open, f0.visited)
    requires nodes == [] ==> f0.stack == [start] && f0.open == []
    requires Popped(f0, f1, cur, k)
    ensures ArenaValid(grid, start, nodes + [cur])
    ensures FrontierValid(grid, start, nodes + [cur], f1.stack) && FrontierValid(grid, start, nodes + [cur], f1.open)
    ensures QueueDistinct(grid, f1.open, f1.visited)
  {
    PopKeepsOthers(f0, f1, cur, k);
    if f1.stack + [cur] == f0.stack && f1.open == f0.open {
      assert cur == f0.stack[|f0.stack| - 1];
      assert forall n :: n in f1.stack ==> n in f0.stack;
    } else {
      RemoveKeepsQueueDistinct(grid, f0, k);
      assert forall n :: n in f1.open ==> n in f0.open;
    }
    ArenaPush(grid, start, nodes, cur, f1.stack);
    ArenaPush(grid, start, nodes, cur, f1.open);
  }

  /** After closing `cur`'s cell, every walkable neighbour of a closed cell is still seen:
      the neighbours of `cur` by the expansion, the others as before the pop. */
  lemma ClosedNotedStep(grid: Grid, closed: seq<bool>, f0: Frontier, f1: Frontier, cur: Node, curIndex: nat, k: int, target: Cell)
    requires WellFormed(grid) && |closed| == |grid.cells| && |f0.visited| == |grid.cells|
    requires ClosedNoted(grid, closed, f0) && Popped(f0, f1, cur, k) && InBounds(grid, cur.x, cur.y)
    ensures ClosedNoted(grid, closed[Index(grid, cur.x, cur.y) := true], Expand(f1, grid, closed, cur, curIndex, target))
  {
    var closed1 := closed[Index(grid, cur.x, cur.y) := true];
    var r := Expand(f1, grid, closed, cur, curIndex, target);
    PopKeepsOthers(f0, f1, cur, k);
    ExpandExtends(f1, grid, closed, cur, curIndex, target);
    ExpandCoversNeighbours(f1, grid, closed, cur, curIndex, target);
    forall c, d | IsClosed(grid, closed1, c) && Adjacent(c, d)
      ensures Noted(grid, closed1, r, d)
    {
      if Walkable(grid, d.x, d.y) && !IsClosed(grid, closed1, d) {
        IndexInjective(grid, c, Here(cur));
        if c == Here(cur) {
          AdjacentIsOrthogonalStep(c, d);
          assert d in NeighbourCells(cur);
          assert Covered(r, grid, closed, cur, curIndex, d, target);
          if Distance(d.x, d.y, target.x, target.y) < cur.h {
            assert Here(Neighbour(cur, curIndex, d.x, d.y, target)) == d;
          }
        } else {
          assert IsClosed(grid, closed, c);
          assert Noted(grid, closed, f0, d);
          if !IsVisited(grid, f0, d) {
            var n :| n in f0.stack && Here(n) == d;
            assert n in r.stack;
          }
        }
      }
    }
  }

  /** After closing `cur`'s cell, every visited cell is still closed or queued. */
  lemma VisitedOpenStep(grid: Grid, closed: seq<bool>, f0: Frontier, f1: Frontier, cur: Node, curIndex: nat, k: int, target: Cell)
    requires WellFormed(grid) && |closed| == |grid.cells| && |f0.visited| == |grid.cells|
    requires VisitedOpen(grid, closed, f0) && Popped(f0, f1, cur, k) && InBounds(grid, cur.x, cur.y)
    ensures VisitedOpen(grid, closed[Index(grid, cur.x, cur.y) := true], Expand(f1, grid, closed, cur, curIndex, target))
  {
    var closed1 := closed[Index(grid, cur.x, cur.y) := true];
    var r := Expand(f1, grid, closed, cur, curIndex, target);
    PopKeepsOthers(f0, f1, cur, k);
    ExpandExtends(f1, grid, closed, cur, curIndex, target);
    forall d | IsVisited(grid, r, d) && !IsClosed(grid, closed1, d)
      ensures HasNodeAt(r.open, d)
    {
      if IsVisited(grid, f1, d) {
        assert IsVisited(grid, f0, d);
        var n :| n in f0.open && Here(n) == d;
        IndexInjective(grid, d, Here(cur));
        assert n in r.open;
      }
    }
  }

  /** One round of the search loop keeps Explored: a node `cur` away from the target is
      popped (the start node in the first round), expanded, and its cell closed. */
  lemma SearchStep(grid: Grid, closed: seq<bool>, f0: Frontier, f1: Frontier, cur: Node, curIndex: nat, k: int,
                   start: Cell, target: Cell, begun: bool)
    requires Explored(grid, closed, f0, start, target, begun) && Popped(f0, f1, cur, k)
    requires InBounds(grid, cur.x, cur.y) && Here(cur) != target
    requires !begun ==> Here(cur) == start
    ensures Explored(grid, closed[Index(grid, cur.x, cur.y) := true], Expand(f1, grid, closed, cur, curIndex, target), start, target, true)
  {
    ClosedNotedStep(grid, closed, f0, f1, cur, curIndex, k, target);
    VisitedOpenStep(grid, closed, f0, f1, cur, curIndex, k, target);
    if InBounds(grid, target.x, target.y) {
      IndexInjective(grid, target, Here(cur));
    }
    if begun {
      if InBounds(grid, start.x, start.y) {
        IndexInjective(grid, start, Here(cur));
      }
    }
  }

  // ---------------------------------------------------------------------------------------
  // An exhausted search

  /** With both frontiers empty, every cell of a walk from the closed start is closed. */
  lemma {:induction false} ExhaustedWalkClosed(grid: Grid, closed: seq<bool>, f: Frontier, start: Cell, target: Cell, path: seq<Cell>, k: int)
    requires Explored(grid, closed, f, start, target, true) && f.stack == [] && f.open == []
    requires IsWalk(grid, start, path) && 0 <= k < |path|
    ensures IsClosed(grid, closed, path[k])
    decreases k
  {
    var before := if k == 0 then start else path[k - 1];
    if k > 0 {
      ExhaustedWalkClosed(grid, closed, f, start, target, path, k - 1);
    }
    assert IsClosed(grid, closed, before) && Adjacent(before, path[k]);
    assert Noted(grid, closed, f, path[k]);
  }

  /** A search that has expanded the start and emptied both frontiers without closing the
      target proves that no walk from the start reaches the target. */
  lemma ExhaustedSearchFindsNoWalk(grid: Grid, closed: seq<bool>, f: Frontier, start: Cell, target: Cell)
    requires Explored(grid, closed, f, start, target, true) && f.stack == [] && f.open == []
    ensures Unreachable(grid, start, target)
  {
    forall path | IsWalk(grid, start, path)
      ensures target !in path
    {
      forall k | 0 <= k < |path|
        ensures path[k] != target
      {
        ExhaustedWalkClosed(grid, closed, f, start, target, path, k);
      }
    }
  }
}
