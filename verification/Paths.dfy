// Finite directed graphs given by their successor sets, their paths, and
// reachability.  Every search of the other modules is measured against these.
module Paths {

  type Graph<T> = map<T, set<T>>

  function Succ<T>(g: Graph<T>, a: T): set<T> {
    if a in g then g[a] else {}
  }

  // A non-empty sequence of nodes, each one a successor of the one before it.
  ghost predicate IsPath<T>(g: Graph<T>, p: seq<T>) {
    && p != []
    && forall i, j :: 0 <= i && j == i + 1 && j < |p| ==> p[j] in Succ(g, p[i])
  }

  ghost predicate Joins<T>(g: Graph<T>, p: seq<T>, a: T, b: T) {
    IsPath(g, p) && p[0] == a && p[|p| - 1] == b
  }

  // b is a, or there is a path of edges from a to b.
  ghost predicate Reach<T(!new)>(g: Graph<T>, a: T, b: T) {
    exists p :: Joins(g, p, a, b)
  }

  // A path with at least one edge leads from a to b.
  ghost predicate ReachPlus<T(!new)>(g: Graph<T>, a: T, b: T) {
    exists c :: c in Succ(g, a) && Reach(g, c, b)
  }

  ghost predicate Closed<T>(g: Graph<T>, s: set<T>) {
    forall a :: a in s ==> Succ(g, a) <= s
  }

  lemma ReachRefl<T(!new)>(g: Graph<T>, a: T)
    ensures Reach(g, a, a)
  {
    assert Joins(g, [a], a, a);
  }

  lemma ReachTrans<T(!new)>(g: Graph<T>, a: T, b: T, c: T)
    requires Reach(g, a, b) && Reach(g, b, c)
    ensures Reach(g, a, c)
  {
    var p :| Joins(g, p, a, b);
    var q :| Joins(g, q, b, c);
    assert Joins(g, p + q[1..], a, c);
  }

  lemma ReachEdge<T(!new)>(g: Graph<T>, a: T, b: T)
    requires b in Succ(g, a)
    ensures Reach(g, a, b)
  {
    assert Joins(g, [a, b], a, b);
  }

  lemma ReachSnoc<T(!new)>(g: Graph<T>, a: T, b: T, c: T)
    requires Reach(g, a, b) && c in Succ(g, b)
    ensures Reach(g, a, c)
  {
    ReachEdge(g, b, c);
    ReachTrans(g, a, b, c);
  }

  lemma ReachCons<T(!new)>(g: Graph<T>, a: T, b: T, c: T)
    requires b in Succ(g, a) && Reach(g, b, c)
    ensures Reach(g, a, c)
  {
    ReachEdge(g, a, b);
    ReachTrans(g, a, b, c);
  }

  // The first edge of a path that is not empty.
  lemma FirstStep<T(!new)>(g: Graph<T>, a: T, b: T) returns (c: T)
    requires ReachPlus(g, a, b)
    ensures c in Succ(g, a) && Reach(g, c, b)
  {
    c :| c in Succ(g, a) && Reach(g, c, b);
  }

  // A path never leaves a set that is closed under successors.
  lemma {:induction false} PathStays<T>(g: Graph<T>, s: set<T>, p: seq<T>)
    requires IsPath(g, p) && p[0] in s && Closed(g, s)
    ensures p[|p| - 1] in s
    decreases |p|
  {
    if |p| > 1 {
      assert p[1] in Succ(g, p[0]);
      PathStays(g, s, p[1..]);
    }
  }

  lemma ReachStays<T(!new)>(g: Graph<T>, s: set<T>, a: T, b: T)
    requires Reach(g, a, b) && a in s && Closed(g, s)
    ensures b in s
  {
    var p :| Joins(g, p, a, b);
    PathStays(g, s, p);
  }

  // Everything reachable from some node of s is in s.
  lemma ClosedHoldsReach<T(!new)>(g: Graph<T>, s: set<T>)
    requires Closed(g, s)
    ensures forall a, b :: a in s && Reach(g, a, b) ==> b in s
  {
    forall a, b | a in s && Reach(g, a, b) ensures b in s {
      ReachStays(g, s, a, b);
    }
  }

  // A graph with more edges has more paths.
  lemma ReachMono<T(!new)>(g: Graph<T>, h: Graph<T>, a: T, b: T)
    requires Reach(g, a, b)
    requires forall x :: x in g ==> g[x] <= Succ(h, x)
    ensures Reach(h, a, b)
  {
    var p :| Joins(g, p, a, b);
    assert Joins(h, p, a, b);
  }
}
