/** Search nodes and the ordering of the open priority queue. */
module Nodes {

  datatype Option<T> = None | Some(value: T)

  /** A search node: its cell, the cost of the path that reached it (g), its Manhattan
      distance to the target (h), and its parent, given as a slot of the arena of expanded
      nodes (None for the start node, whose parent pointer is null). Both costs are
      non-negative: g counts steps and h is a distance. */
  datatype Node = Node(x: int, y: int, g: nat, h: nat, parent: Option<nat>)

  /** The estimated cost of a path through n. */
  function F(n: Node): nat {
    n.g + n.h
  }

  /** The queue's comparator: true when a ranks after b, that is when a's f is larger,
      or when the f values are equal and a is farther from the target. */
  predicate Comp(a: Node, b: Node)
    ensures Comp(a, b) <==> F(a) > F(b) || (F(a) == F(b) && a.h > b.h)
  {
    if a.g + a.h == b.g + b.h then a.h > b.h else a.g + a.h > b.g + b.h
  }

  /** q[k] is an entry the queue's top may return: no entry of q ranks before it. These are
      exactly the entries with the least f and, among those, the least h. */
  predicate IsTop(q: seq<Node>, k: int)
    ensures IsTop(q, k) <==>
      && 0 <= k < |q|
      && forall j :: 0 <= j < |q| ==> F(q[k]) < F(q[j]) || (F(q[k]) == F(q[j]) && q[k].h <= q[j].h)
  {
    0 <= k < |q| && forall j :: 0 <= j < |q| ==> !Comp(q[k], q[j])
  }

  /** Comp is the strict order "ranks after" on the key (f, h): irreflexive, transitive,
      and two nodes tie exactly when f and h agree. */
  lemma CompIsStrictWeakOrder(a: Node, b: Node, c: Node)
    ensures !Comp(a, a)
    ensures Comp(a, b) && Comp(b, c) ==> Comp(a, c)
    ensures Comp(a, b) ==> !Comp(b, a)
    ensures !Comp(a, b) && !Comp(b, a) <==> F(a) == F(b) && a.h == b.h
  {
  }

  /** A non-empty queue always has a top. */
  lemma {:induction false} TopExists(q: seq<Node>)
    requires q != []
    ensures exists k :: IsTop(q, k)
  {
    var n := |q| - 1;
    if n == 0 {
      assert IsTop(q, 0);
    } else {
      TopExists(q[..n]);
      var k :| IsTop(q[..n], k);
      if Comp(q[k], q[n]) {
        forall j | 0 <= j < |q|
          ensures !Comp(q[n], q[j])
        {
          if j < n {
            assert !Comp(q[k], q[..n][j]);
            CompIsStrictWeakOrder(q[k], q[n], q[j]);
          }
        }
        assert IsTop(q, n);
      } else {
        assert forall j :: 0 <= j < n ==> q[..n][j] == q[j];
        assert IsTop(q, k);
      }
    }
  }
}
