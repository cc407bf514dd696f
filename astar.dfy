/** The path finder: class AStar and its one public operation, FindPath. */
module Pathfinding {
  import opened GridAdapter
  import opened Nodes
  import opened Arena
  import opened Expansion
  import opened Exploration

  class AStar {
    var mapWidth: int
    var mapHeight: int

    /** Nodes in the target's direction: a stack whose top is the last entry. */
    var closestNodes: seq<Node>
    /** One flag per cell: the cell has been pushed onto the open queue. */
    var visited: array<bool>
    var startNode: Node
    var targetNode: Node
    /** The current node, as its slot in `nodes`. */
    var currentNode: nat
    /** The open priority queue, unordered; its top is an entry satisfying IsTop. */
    var openNodes: seq<Node>
    /** The arena: every node that has been the current node, in order; parents point into it. */
    var nodes: seq<Node>
    /** The cells pushed onto the open queue, in order (a log kept for the proofs). */
    ghost var enqueued: seq<int>

    /** A new path finder: both frontiers empty, no visited table yet. */
    constructor ()
      ensures mapWidth == 0 && mapHeight == 0
      ensures closestNodes == [] && openNodes == [] && visited.Length == 0
      ensures nodes == [] && enqueued == []
    {
      mapWidth, mapHeight := 0, 0;
      closestNodes := [];
      visited := new bool[0];
      startNode := Node(0, 0, 0, 0, None);
      targetNode := Node(0, 0, 0, 0, None);
      currentNode := 0;
      openNodes := [];
      nodes := [];
      enqueued := [];
    }

    ghost function State(): Frontier
      reads this, visited
    {
      Frontier(closestNodes, openNodes, visited[..], enqueued)
    }

    ghost function Target(): Cell
      reads this
    {
      Cell(targetNode.x, targetNode.y)
    }

    /** The invariant of a search in progress on `grid`. */
    ghost predicate Valid(grid: Grid)
      reads this, visited
    {
      && WellFormed(grid) && grid.width == mapWidth && grid.height == mapHeight
      && visited.Length == |grid.cells|
      && StartOk(grid, startNode)
      && startNode.h == Distance(startNode.x, startNode.y, targetNode.x, targetNode.y)
      && InBounds(grid, targetNode.x, targetNode.y)
      && ArenaValid(grid, startNode, nodes)
      && FrontierValid(grid, startNode, nodes, closestNodes)
      && FrontierValid(grid, startNode, nodes, openNodes)
      && QueuedOnce(enqueued, visited[..])
      && QueueDistinct(grid, openNodes, visited[..])
      && (nodes == [] ==> closestNodes == [startNode] && openNodes == [])
      && (nodes != [] ==> currentNode < |nodes|)
    }

    /** checkNeighbour(x, y): create the neighbour node and push it onto the stack or, if its
        cell was not visited yet, onto the queue. */
    method CheckNeighbour(ghost grid: Grid, x: int, y: int)
      requires WellFormed(grid) && grid.width == mapWidth && InBounds(grid, x, y)
      requires visited.Length == |grid.cells| && currentNode < |nodes|
      modifies this`closestNodes, this`openNodes, this`enqueued, visited
      ensures State() == Check(old(State()), grid, nodes[currentNode], currentNode, x, y, Target())
    {
      var i := x + y * mapWidth;
      assert i == Index(grid, x, y);
      ghost var f := State();
      var neighbour := Node(x, y, nodes[currentNode].g + 1, Distance(x, y, targetNode.x, targetNode.y), Some(currentNode));
      assert neighbour == Neighbour(nodes[currentNode], currentNode, x, y, Target());
      if neighbour.h < nodes[currentNode].h {
        closestNodes := closestNodes + [neighbour];
      } else if !visited[i] {
        openNodes := openNodes + [neighbour];
        visited[i] := true;
        enqueued := enqueued + [i];
        assert visited[..] == f.visited[i := true];
      }
    }

    /** Lines 99-108: take the next node off the frontiers: the stack's top while the stack
        is not empty, otherwise a top of the queue under Comp. */
    method TakeNext() returns (top: Node, ghost k: int)
      requires closestNodes != [] || openNodes != []
      modifies this`closestNodes, this`openNodes
      ensures old(closestNodes) != [] ==>
        && closestNodes + [top] == old(closestNodes) && openNodes == old(openNodes)
        && StackWeight(old(closestNodes)) == StackWeight(closestNodes) + Pow5(top.h)
      ensures old(closestNodes) == [] ==>
        && closestNodes == []
        && IsTop(old(openNodes), k) && top == old(openNodes)[k]
        && openNodes == old(openNodes)[..k] + old(openNodes)[k + 1..]
    {
      k := 0;
      if closestNodes != [] {
        top := closestNodes[|closestNodes| - 1];
        closestNodes := closestNodes[..|closestNodes| - 1];
      } else {
        TopExists(openNodes);
        var j :| 0 <= j < |openNodes| && IsTop(openNodes, j);
        top := openNodes[j];
        openNodes := openNodes[..j] + openNodes[j + 1..];
        k := j;
      }
    }

    /** Take the next current node, as TakeNext does; it joins the arena and becomes the
        current node, and the search invariant is kept. */
    method PopCurrent(ghost grid: Grid) returns (ghost k: int)
      requires Valid(grid) && (closestNodes != [] || openNodes != [])
      modifies this`closestNodes, this`openNodes, this`nodes, this`currentNode
      ensures Valid(grid) && nodes != []
      ensures currentNode == |old(nodes)| && nodes == old(nodes) + [nodes[currentNode]]
      ensures old(closestNodes) != [] ==>
        && closestNodes + [nodes[currentNode]] == old(closestNodes) && openNodes == old(openNodes)
        && StackWeight(old(closestNodes)) == StackWeight(closestNodes) + Pow5(nodes[currentNode].h)
      ensures old(closestNodes) == [] ==>
        && closestNodes == []
        && IsTop(old(openNodes), k) && nodes[currentNode] == old(openNodes)[k]
        && openNodes == old(openNodes)[..k] + old(openNodes)[k + 1..]
    {
      ghost var f := State();
      var top;
      top, k := TakeNext();
      assert Popped(f, State(), top, k);
      PopKeepsLinks(grid, startNode, nodes, f, State(), top, k);
      nodes := nodes + [top];
      currentNode := |nodes| - 1;
    }

    /** One guarded checkNeighbour call of lines 114-121: the cell is checked only when it lies
        inside the grid, is walkable and is not closed. (Each guard of the source tests the
        one bound that the step can cross; the other coordinate is the current node's own.) */
    method VisitNeighbour(cells: seq<byte>, closed: array<bool>, x: int, y: int)
      requires WellFormed(Grid(mapWidth, mapHeight, cells)) && visited.Length == |cells|
      requires closed.Length == |cells| && closed != visited && currentNode < |nodes|
      modifies this`closestNodes, this`openNodes, this`enqueued, visited
      ensures State() == Visit(old(State()), Grid(mapWidth, mapHeight, cells), closed[..], nodes[currentNode], currentNode, x, y, Target())
    {
      ghost var grid := Grid(mapWidth, mapHeight, cells);
      if 0 <= x < mapWidth && 0 <= y < mapHeight {
        RowMajor(mapWidth, mapHeight, x, y);
        if cells[x + y * mapWidth] == 1 && closed[x + y * mapWidth] == false {
          CheckNeighbour(grid, x, y);
        }
      }
    }

    /** Lines 114-121: check the four neighbours of the current node (left, right, up, down).
        The frontier changes exactly as Expand says, the search invariant is kept, and the
        termination measure of the main loop shrinks. */
    method ExpandNeighbours(cells: seq<byte>, closed: array<bool>)
      requires Valid(Grid(mapWidth, mapHeight, cells)) && nodes != []
      requires closed.Length == |cells| && closed != visited
      modifies this`closestNodes, this`openNodes, this`enqueued, visited
      ensures Valid(Grid(mapWidth, mapHeight, cells))
      ensures State() == Expand(old(State()), Grid(mapWidth, mapHeight, cells), closed[..], nodes[currentNode], currentNode, Target())
      ensures CountFalse(visited[..]) + |openNodes| == old(CountFalse(visited[..]) + |openNodes|)
      ensures StackWeight(closestNodes) < old(StackWeight(closestNodes)) + Pow5(nodes[currentNode].h)
    {
      ghost var grid := Grid(mapWidth, mapHeight, cells);
      ghost var f0 := State();
      var cur := nodes[currentNode];
      VisitNeighbour(cells, closed, cur.x - 1, cur.y);
      ghost var f1 := State();
      VisitNeighbour(cells, closed, cur.x + 1, cur.y);
      ghost var f2 := State();
      VisitNeighbour(cells, closed, cur.x, cur.y - 1);
      ghost var f3 := State();
      VisitNeighbour(cells, closed, cur.x, cur.y + 1);
      ExpandIsFourVisits(f0, grid, closed[..], cur, currentNode, Target());
      ExpandKeepsSearchInvariant(f0, grid, closed[..], startNode, nodes, currentNode, Target());
    }

    /** Lines 113-123: expand the current node, then close its cell. */
    method ExpandCurrent(cells: seq<byte>, closed: array<bool>)
      requires Valid(Grid(mapWidth, mapHeight, cells)) && nodes != []
      requires closed.Length == |cells| && closed != visited
      modifies this`closestNodes, this`openNodes, this`enqueued, visited, closed
      ensures Valid(Grid(mapWidth, mapHeight, cells))
      ensures State() == Expand(old(State()), Grid(mapWidth, mapHeight, cells), old(closed[..]), nodes[currentNode], currentNode, Target())
      ensures closed[..] == old(closed[..])[Index(Grid(mapWidth, mapHeight, cells), nodes[currentNode].x, nodes[currentNode].y) := true]
      ensures CountFalse(visited[..]) + |openNodes| == old(CountFalse(visited[..]) + |openNodes|)
      ensures StackWeight(closestNodes) < old(StackWeight(closestNodes)) + Pow5(nodes[currentNode].h)
    {
      ExpandNeighbours(cells, closed);
      var cur := nodes[currentNode];
      assert LinkOk(Grid(mapWidth, mapHeight, cells), startNode, nodes, cur, currentNode);
      RowMajor(mapWidth, mapHeight, cur.x, cur.y);
      closed[cur.x + cur.y * mapWidth] := true;
    }

    /** Lines 113-123 after a pop that took `nodes[currentNode]` away from the target: expand
        it and close its cell. The exploration invariant that held before the pop (on `f0`,
        `closed`, `begun`) holds again, with the start now expanded. */
    method ExploreCurrent(cells: seq<byte>, closed: array<bool>, ghost f0: Frontier, ghost k: int, ghost begun: bool)
      requires Valid(Grid(mapWidth, mapHeight, cells)) && nodes != []
      requires closed.Length == |cells| && closed != visited
      requires Explored(Grid(mapWidth, mapHeight, cells), closed[..], f0, Here(startNode), Target(), begun)
      requires Popped(f0, State(), nodes[currentNode], k)
      requires Here(nodes[currentNode]) != Target()
      requires !begun ==> nodes[currentNode] == startNode
      modifies this`closestNodes, this`openNodes, this`enqueued, visited, closed
      ensures Valid(Grid(mapWidth, mapHeight, cells))
      ensures State() == Expand(old(State()), Grid(mapWidth, mapHeight, cells), old(closed[..]), nodes[currentNode], currentNode, Target())
      ensures closed[..] == old(closed[..])[Index(Grid(mapWidth, mapHeight, cells), nodes[currentNode].x, nodes[currentNode].y) := true]
      ensures Explored(Grid(mapWidth, mapHeight, cells), closed[..], State(), Here(startNode), Target(), true)
      // the round that popped the node and expanded it shrinks the search loop's measure
      ensures || CountFalse(visited[..]) + |openNodes| < CountFalse(f0.visited) + |f0.open|
              || (&& CountFalse(visited[..]) + |openNodes| == CountFalse(f0.visited) + |f0.open|
                  && StackWeight(closestNodes) < StackWeight(f0.stack))
    {
      ghost var grid := Grid(mapWidth, mapHeight, cells);
      ghost var cur := nodes[currentNode];
      if closestNodes + [cur] == f0.stack {
        assert f0.stack[..|f0.stack| - 1] == closestNodes;
      }
      assert LinkOk(grid, startNode, nodes, cur, currentNode);
      SearchStep(grid, closed[..], f0, State(), cur, currentNode, k, Here(startNode), Target(), begun);
      ExpandCurrent(cells, closed);
    }

    /** Lines 97-124: the search loop. It takes the next current node (the stack before the
        queue), stops when that node is on the target's cell, and otherwise expands it and
        closes its cell, until both frontiers are empty. It ends with the invariant kept, and away from the
        target only when both frontiers are exhausted, which happens only when no walk from
        the start reaches the target. A start on the target is popped and ends the search at
        once. */
    method Search(cells: seq<byte>, closed: array<bool>)
      requires Valid(Grid(mapWidth, mapHeight, cells)) && nodes == []
      requires closed.Length == |cells| && closed != visited
      requires forall i :: 0 <= i < closed.Length ==> !closed[i]
      requires forall i :: 0 <= i < visited.Length ==> !visited[i]
      modifies this`closestNodes, this`openNodes, this`enqueued, this`nodes, this`currentNode, visited, closed
      ensures Valid(Grid(mapWidth, mapHeight, cells)) && nodes != []
      ensures Here(nodes[currentNode]) != Target() ==> closestNodes == [] && openNodes == []
      ensures Here(nodes[currentNode]) != Target() ==> Unreachable(Grid(mapWidth, mapHeight, cells), Here(startNode), Target())
      ensures Here(startNode) == Target() ==> nodes[currentNode] == startNode
    {
      ghost var grid := Grid(mapWidth, mapHeight, cells);
      NothingExplored(grid, closed[..], State(), Here(startNode), Target());
      while openNodes != [] || closestNodes != []
        invariant Valid(grid)
        invariant Here(startNode) == Target() ==> nodes == []
        invariant Explored(grid, closed[..], State(), Here(startNode), Target(), nodes != [])
        decreases CountFalse(visited[..]) + |openNodes|, StackWeight(closestNodes)
      {
        ghost var f0, begun := State(), nodes != [];
        ghost var k := PopCurrent(grid);
        if nodes[currentNode].x == targetNode.x && nodes[currentNode].y == targetNode.y {
          break;
        }
        ExploreCurrent(cells, closed, f0, k, begun);
      }
      if Here(nodes[currentNode]) != Target() {
        ExhaustedSearchFindsNoWalk(grid, closed[..], State(), Here(startNode), Target());
      }
    }

    /** Lines 142-146: walk the parent links from the current node to the start, pushing the
        slot of each node passed. The stack's top (its last entry) is the first cell after
        the start. */
    method CollectPath(ghost grid: Grid) returns (pathStack: seq<int>)
      requires WellFormed(grid) && grid.width == mapWidth && StartOk(grid, startNode)
      requires ArenaValid(grid, startNode, nodes) && currentNode < |nodes|
      ensures |pathStack| == nodes[currentNode].g
      ensures forall k :: 0 <= k < |pathStack| ==>
        pathStack[k] == PathSlots(grid, startNode, nodes, currentNode)[|pathStack| - 1 - k]
    {
      ghost var slots := PathSlots(grid, startNode, nodes, currentNode);
      ghost var pathLength := nodes[currentNode].g;
      pathStack := [];
      var path := currentNode;
      while nodes[path].parent.Some?
        invariant 0 <= path < |nodes| && nodes[path].g <= pathLength
        invariant PathSlots(grid, startNode, nodes, path) == slots[..nodes[path].g]
        invariant |pathStack| + nodes[path].g == pathLength
        invariant forall k :: 0 <= k < |pathStack| ==> pathStack[k] == slots[pathLength - 1 - k]
        decreases path
      {
        PathSlotsPrefix(grid, startNode, nodes, path, slots);
        pathStack := pathStack + [nodes[path].x + nodes[path].y * mapWidth];
        path := nodes[path].parent.value;
      }
    }

    /** Lines 138-152: collect the path's slots, then pop them into the caller's buffer, so
        that the buffer holds the path from the cell after the start through the current
        node, in walking order. Nothing past the path's length is written. */
    method WritePath(ghost grid: Grid, outBuffer: array<int>) returns (pathLength: int)
      requires WellFormed(grid) && grid.width == mapWidth && StartOk(grid, startNode)
      requires ArenaValid(grid, startNode, nodes) && currentNode < |nodes|
      requires nodes[currentNode].g <= outBuffer.Length
      modifies outBuffer
      ensures pathLength == nodes[currentNode].g
      ensures outBuffer[..pathLength] == PathSlots(grid, startNode, nodes, currentNode)
      ensures outBuffer[pathLength..] == old(outBuffer[pathLength..])
    {
      var pathStack := CollectPath(grid);
      ghost var slots := PathSlots(grid, startNode, nodes, currentNode);
      pathLength := nodes[currentNode].g;
      for i := 0 to pathLength
        invariant |pathStack| == pathLength - i
        invariant forall k :: 0 <= k < |pathStack| ==> pathStack[k] == slots[pathLength - 1 - k]
        invariant outBuffer[..i] == slots[..i]
        invariant outBuffer[i..] == old(outBuffer[i..])
      {
        outBuffer[i] := pathStack[|pathStack| - 1];
        pathStack := pathStack[..|pathStack| - 1];
        assert outBuffer[..i + 1] == outBuffer[..i] + [outBuffer[i]];
        assert outBuffer[i + 1..] == old(outBuffer[i..])[1..];
      }
    }

    /** Lines 79-95: record the grid's size, create the start node (g 0, its distance to the
        target, no parent) and the target node, an all-false visited table and closed table,
        and push the start node onto the stack. The line-88 test compares two fresh pointers
        and never holds, so the search always runs. */
    method Init(mapWidth: int, mapHeight: int, cells: seq<byte>, startX: int, startY: int,
                targetX: int, targetY: int) returns (closed: array<bool>)
      requires 0 < mapWidth && 0 < mapHeight && |cells| == mapWidth * mapHeight
      requires 0 <= startX < mapWidth && 0 <= startY < mapHeight
      requires 0 <= targetX < mapWidth && 0 <= targetY < mapHeight
      modifies this
      ensures this.mapWidth == mapWidth && this.mapHeight == mapHeight
      ensures startNode == Node(startX, startY, 0, Distance(startX, startY, targetX, targetY), None)
      ensures targetNode == Node(targetX, targetY, 0, 0, None)
      ensures Valid(Grid(mapWidth, mapHeight, cells)) && nodes == []
      ensures fresh(visited) && fresh(closed) && closed != visited
      ensures closed.Length == |cells| && forall i :: 0 <= i < closed.Length ==> !closed[i]
      ensures visited[..] == seq(|cells|, _ => false) && enqueued == []
      ensures closestNodes == [startNode] && openNodes == []
    {
      this.mapWidth := mapWidth;
      this.mapHeight := mapHeight;
      startNode := Node(startX, startY, 0, Distance(startX, startY, targetX, targetY), None);
      targetNode := Node(targetX, targetY, 0, 0, None);
      visited := new bool[mapWidth * mapHeight](_ => false);
      closed := new bool[mapWidth * mapHeight](_ => false);
      nodes := [];
      enqueued := [];
      closestNodes := [startNode];
      openNodes := [];
    }

    /** Run the search on a `mapWidth` x `mapHeight` map from (startX, startY) to
        (targetX, targetY). Returns -1 when the search ends on a node whose column and row
        both differ from the target's; otherwise the g of the node it ends on, which is the
        length of the path to it, and the path's cell indices are written to `outBuffer` when
        that length fits in `outBufferSize`. The object must be new (as the source's own
        demo uses it). */
    method FindPath(mapWidth: int, mapHeight: int, cells: seq<byte>, startX: int, startY: int,
                    targetX: int, targetY: int, outBufferSize: int, outBuffer: array<int>) returns (r: int)
      requires closestNodes == [] && openNodes == [] && visited.Length == 0
      requires 0 < mapWidth && 0 < mapHeight && mapWidth * mapHeight <= 0x7fff_ffff
      requires |cells| == mapWidth * mapHeight
      requires 0 <= startX < mapWidth && 0 <= startY < mapHeight
      requires 0 <= targetX < mapWidth && 0 <= targetY < mapHeight
      requires outBufferSize <= outBuffer.Length
      modifies this, outBuffer
      ensures startNode == Node(startX, startY, 0, Distance(startX, startY, targetX, targetY), None)
      ensures ArenaValid(Grid(mapWidth, mapHeight, cells), startNode, nodes)
      ensures nodes != [] && currentNode < |nodes|
      // the result code
      ensures r == -1 <==> nodes[currentNode].x != targetX && nodes[currentNode].y != targetY
      ensures r != -1 ==> r == nodes[currentNode].g
      // the search stops away from the target only when both frontiers are exhausted
      ensures (nodes[currentNode].x != targetX || nodes[currentNode].y != targetY) ==>
        closestNodes == [] && openNodes == []
      // ... and then no walk from the start reaches the target, so -1 is never a false alarm
      ensures (nodes[currentNode].x != targetX || nodes[currentNode].y != targetY) ==>
        Unreachable(Grid(mapWidth, mapHeight, cells), Cell(startX, startY), Cell(targetX, targetY))
      ensures r == -1 ==> Unreachable(Grid(mapWidth, mapHeight, cells), Cell(startX, startY), Cell(targetX, targetY))
      // the path to the final node: g steps, a walk from the start ending on that node
      ensures |PathTo(Grid(mapWidth, mapHeight, cells), startNode, nodes, currentNode)| == nodes[currentNode].g
      ensures IsWalk(Grid(mapWidth, mapHeight, cells), Cell(startX, startY), PathTo(Grid(mapWidth, mapHeight, cells), startNode, nodes, currentNode))
      ensures nodes[currentNode].g > 0 ==>
        PathTo(Grid(mapWidth, mapHeight, cells), startNode, nodes, currentNode)[nodes[currentNode].g - 1] == Cell(nodes[currentNode].x, nodes[currentNode].y)
      // the buffer
      ensures r == -1 || r > outBufferSize ==> outBuffer[..] == old(outBuffer[..])
      ensures r != -1 && r <= outBufferSize ==>
        && outBuffer[..r] == PathSlots(Grid(mapWidth, mapHeight, cells), startNode, nodes, currentNode)
        && outBuffer[r..] == old(outBuffer[r..])
        && closestNodes == [] && openNodes == []
      ensures startX == targetX && startY == targetY ==> r == 0 && outBuffer[..] == old(outBuffer[..])
    {
      var closed := Init(mapWidth, mapHeight, cells, startX, startY, targetX, targetY);
      ghost var grid := Grid(mapWidth, mapHeight, cells);
      Search(cells, closed);

      PathLength(grid, startNode, nodes, currentNode);
      PathIsWalk(grid, startNode, nodes, currentNode);
      if nodes[currentNode].x != targetNode.x && nodes[currentNode].y != targetNode.y {
        return -1;
      }
      if nodes[currentNode].g > outBufferSize {
        return nodes[currentNode].g;
      }
      r := WritePath(grid, outBuffer);
      closestNodes := [];
      openNodes := [];
    }
  }

  /** In the 3 x 1 map [1, 0, 1], no cell next to (0, 0) is walkable. */
  lemma CorridorStartIsolated()
    ensures forall c :: Adjacent(Cell(0, 0), c) ==> !Walkable(Grid(3, 1, [1, 0, 1]), c.x, c.y)
  {
    var grid := Grid(3, 1, [1, 0, 1]);
    assert grid.width == 3 && grid.height == 1 && grid.cells[1] == 0;
    forall c | Adjacent(Cell(0, 0), c)
      ensures !Walkable(grid, c.x, c.y)
    {
      AdjacentIsOrthogonalStep(Cell(0, 0), c);
      if c == Cell(1, 0) {
        assert Index(grid, 1, 0) == 1;
      } else {
        assert c.x < 0 || c.y < 0 || c.y >= 1;
      }
    }
  }

  /** The 3 x 1 map [1, 0, 1] searched from (0, 0) to (2, 0): the blocked middle cell cuts
      the target off, so no walk reaches it and the search exhausts both frontiers on the
      start node. That node shares the target's row, so the result is its g, 0, and not -1. */
  method BlockedCorridor() returns (r: int)
    ensures Unreachable(Grid(3, 1, [1, 0, 1]), Cell(0, 0), Cell(2, 0))
    ensures r == 0
  {
    var finder := new AStar();
    var buffer := new int[10];
    var cells: seq<byte> := [1, 0, 1];
    r := finder.FindPath(3, 1, cells, 0, 0, 2, 0, 10, buffer);
    ghost var grid := Grid(3, 1, cells);
    CorridorStartIsolated();
    IsolatedStart(grid, finder.startNode, finder.nodes, finder.currentNode);
  }
}
