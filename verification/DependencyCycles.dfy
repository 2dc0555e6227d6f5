// Dependency graphs of packages and the search for cycles in them.
module DependencyCycles {
  import opened DistinctSeqs
  import opened Paths

  // Package paths are only compared, so they are numbers here.
  type Name = int

  // ------------------------------------------------------------ cycles in a graph

  // A cycle can be reached from a.
  ghost predicate Cyclic(g: Graph<Name>, a: Name) {
    exists n :: Reach(g, a, n) && ReachPlus(g, n, n)
  }

  // The graph without some of its nodes.
  ghost function Without(g: Graph<Name>, base: set<Name>): Graph<Name> {
    map n | n in g && n !in base :: g[n] - base
  }

  // A set of nodes that no path leaves and that no cycle goes through.
  ghost predicate Cleared(g: Graph<Name>, s: set<Name>) {
    Closed(g, s) && forall n :: n in s ==> !ReachPlus(g, n, n)
  }

  lemma ClearedHasNoCycle(g: Graph<Name>, s: set<Name>, a: Name)
    requires Cleared(g, s) && a in s
    ensures !Cyclic(g, a)
  {
    ClosedHoldsReach(g, s);
  }

  lemma CyclicAfterStep(g: Graph<Name>, a: Name, b: Name)
    requires b in Succ(g, a) && Cyclic(g, b)
    ensures Cyclic(g, a)
  {
    var n :| Reach(g, b, n) && ReachPlus(g, n, n);
    ReachCons(g, a, b, n);
  }

  // A node whose successors are all cleared is cleared too.
  lemma ClearedGrows(g: Graph<Name>, s: set<Name>, a: Name)
    requires Cleared(g, s) && a !in s && Succ(g, a) <= s
    ensures Cleared(g, s + {a})
  {
    ClosedHoldsReach(g, s);
    assert !ReachPlus(g, a, a);
  }

  lemma ReachPlusSnoc(g: Graph<Name>, a: Name, b: Name, c: Name)
    requires ReachPlus(g, a, b) && c in Succ(g, b)
    ensures ReachPlus(g, a, c)
  {
    var d := FirstStep(g, a, b);
    ReachSnoc(g, d, b, c);
  }

  lemma ReachPlusEdge(g: Graph<Name>, a: Name, b: Name)
    requires b in Succ(g, a)
    ensures ReachPlus(g, a, b)
  {
    ReachRefl(g, b);
  }

  // Nothing depends on n.
  ghost predicate Root(g: Graph<Name>, n: Name) {
    n in g && forall m :: m in g ==> n !in g[m]
  }

  // What a search that skips the nodes of base finds from n.
  ghost predicate FoundFrom(g: Graph<Name>, base: set<Name>, n: Name) {
    n !in base && Cyclic(Without(g, base), n)
  }

  ghost predicate SomeRootFinds(g: Graph<Name>, base: set<Name>) {
    exists n :: Root(g, n) && FoundFrom(g, base, n)
  }

  ghost predicate SomeRootReachesCycle(g: Graph<Name>) {
    exists n :: Root(g, n) && Cyclic(g, n)
  }

  // Skipping nodes that are cleared misses nothing.
  lemma SkippingCleared(g: Graph<Name>, base: set<Name>, n: Name)
    requires Cleared(g, base)
    ensures FoundFrom(g, base, n) <==> Cyclic(g, n)
  {
    var h := Without(g, base);
    if FoundFrom(g, base, n) {
      var c :| Reach(h, n, c) && ReachPlus(h, c, c);
      ReachMono(h, g, n, c);
      var d := FirstStep(h, c, c);
      ReachMono(h, g, d, c);
      assert ReachPlus(g, c, c);
    }
    if Cyclic(g, n) {
      var c :| Reach(g, n, c) && ReachPlus(g, c, c);
      var d := FirstStep(g, c, c);
      ReachAvoids(g, base, n, c);
      ReachAvoids(g, base, d, c);
      assert d in Succ(h, c);
      assert ReachPlus(h, c, c);
    }
  }

  lemma ReachAvoids(g: Graph<Name>, base: set<Name>, a: Name, b: Name)
    requires Closed(g, base) && b !in base && Reach(g, a, b)
    ensures a !in base && Reach(Without(g, base), a, b)
  {
    var p :| Joins(g, p, a, b);
    PathAvoids(g, base, p);
    assert Joins(Without(g, base), p, a, b);
  }

  lemma {:induction false} PathAvoids(g: Graph<Name>, base: set<Name>, p: seq<Name>)
    requires Closed(g, base) && IsPath(g, p) && p[|p| - 1] !in base
    ensures IsPath(Without(g, base), p) && p[0] !in base
    decreases |p|
  {
    if |p| > 1 {
      var q := p[1..];
      PathAvoids(g, base, q);
      assert q[0] in Succ(g, p[0]);
      forall i, j | 0 <= i && j == i + 1 && j < |p| ensures p[j] in Succ(Without(g, base), p[i]) {
        if i > 0 {
          assert q[i] in Succ(Without(g, base), q[i - 1]);
        }
      }
    }
  }

  // ------------------------------------------------------------ adding an edge

  ghost function WithNode(g: Graph<Name>, a: Name): Graph<Name> {
    if a in g then g else g[a := {}]
  }

  // The graph with its two nodes present and an edge between them.
  ghost function WithEdge(g: Graph<Name>, a: Name, b: Name): (h: Graph<Name>)
    ensures h.Keys == g.Keys + {a, b}
    ensures forall n :: Succ(h, n) == if n == a then Succ(g, n) + {b} else Succ(g, n)
  {
    var h := WithNode(WithNode(g, a), b);
    h[a := h[a] + {b}]
  }

  // A path that uses the new edge splits at its first and its last use.
  lemma {:induction false} PathWithEdge(g: Graph<Name>, a: Name, b: Name, p: seq<Name>)
    requires IsPath(WithEdge(g, a, b), p)
    ensures Reach(g, p[0], p[|p| - 1]) || (Reach(g, p[0], a) && Reach(WithEdge(g, a, b), b, p[|p| - 1]))
    decreases |p|
  {
    var n, z := p[0], p[|p| - 1];
    if |p| == 1 {
      ReachRefl(g, n);
    } else {
      var q := p[1..];
      assert q[0] in Succ(WithEdge(g, a, b), n);
      assert Joins(WithEdge(g, a, b), q, q[0], z);
      if q[0] in Succ(g, n) {
        PathWithEdge(g, a, b, q);
        ReachEdge(g, n, q[0]);
        if Reach(g, q[0], z) {
          ReachTrans(g, n, q[0], z);
        } else {
          ReachTrans(g, n, q[0], a);
        }
      } else {
        ReachRefl(g, a);
      }
    }
  }

  lemma {:induction false} PathToSource(g: Graph<Name>, a: Name, b: Name, p: seq<Name>)
    requires IsPath(WithEdge(g, a, b), p) && p[|p| - 1] == a
    ensures Reach(g, p[0], a)
    decreases |p|
  {
    if p[0] == a {
      ReachRefl(g, a);
    } else {
      var q := p[1..];
      assert q[0] in Succ(g, p[0]);
      PathToSource(g, a, b, q);
      ReachCons(g, p[0], q[0], a);
    }
  }

  // The new edge closes a cycle only if its source was reachable from its target.
  lemma NewCycle(g: Graph<Name>, a: Name, b: Name, n: Name)
    requires ReachPlus(WithEdge(g, a, b), n, n) && !ReachPlus(g, n, n)
    ensures Reach(g, n, a) && Reach(g, b, a)
  {
    var h := WithEdge(g, a, b);
    var c := FirstStep(h, n, n);
    var p :| Joins(h, p, c, n);
    if c in Succ(g, n) {
      PathWithEdge(g, a, b, p);
      ReachCons(g, n, c, a);
      assert Reach(h, b, n);
      ReachMono(g, h, n, a);
      ReachTrans(h, b, n, a);
      var q :| Joins(h, q, b, a);
      PathToSource(g, a, b, q);
    } else {
      PathToSource(g, a, b, p);
      ReachRefl(g, a);
    }
  }

  // After an edge is added the cleared nodes are still cleared if and only if the
  // edge was there, or its source is not one of them, or its target is one that
  // does not reach the source.
  lemma AddKeepsCleared(g: Graph<Name>, s: set<Name>, a: Name, b: Name)
    requires Cleared(g, s)
    ensures Cleared(WithEdge(g, a, b), s) <==> (a !in s || b in Succ(g, a) || (b in s && !Reach(g, b, a)))
  {
    var h := WithEdge(g, a, b);
    if a in s && b !in Succ(g, a) {
      assert b in Succ(h, a);
      if Reach(g, b, a) {
        ReachMono(g, h, b, a);
        assert ReachPlus(h, a, a);
      }
    }
    if b in Succ(g, a) && Reach(g, b, a) {
      assert ReachPlus(g, a, a);
    }
    ClosedHoldsReach(g, s);
    if a !in s || b in Succ(g, a) || (b in s && !Reach(g, b, a)) {
      forall n | n in s ensures !ReachPlus(h, n, n) {
        if ReachPlus(h, n, n) {
          NewCycle(g, a, b, n);
        }
      }
      forall n, m | n in s && m in Succ(h, n) ensures m in s {
        assert m in Succ(g, n) || (n == a && m == b);
      }
    }
  }

  // ------------------------------------------------------------ the lists of the entries

  // The two families of lists hold no name twice and are each other's inverse.
  ghost predicate Mutual(d: map<Name, seq<Name>>, r: map<Name, seq<Name>>) {
    && d.Keys == r.Keys
    && (forall n {:trigger NoDup(d[n])} :: n in d ==> NoDup(d[n]))
    && (forall n {:trigger NoDup(r[n])} :: n in d ==> NoDup(r[n]))
    && (forall n {:trigger Items(d[n])} :: n in d ==> Items(d[n]) <= d.Keys)
    && (forall n {:trigger Items(r[n])} :: n in d ==> Items(r[n]) <= d.Keys)
    && forall m, n {:trigger n in Items(d[m])} {:trigger m in Items(r[n])} ::
         m in d && n in d ==> (n in Items(d[m]) <==> m in Items(r[n]))
  }

  ghost function WithList(d: map<Name, seq<Name>>, n: Name): map<Name, seq<Name>> {
    if n in d then d else d[n := []]
  }

  // One name is added to one list.
  ghost function Appended(d: map<Name, seq<Name>>, a: Name, b: Name): map<Name, seq<Name>>
    requires a in d
  {
    d[a := d[a] + [b]]
  }

  ghost function EdgesOf(d: map<Name, seq<Name>>): Graph<Name> {
    map n | n in d :: Items(d[n])
  }

  lemma MutualNode(l: map<Name, seq<Name>>, r: map<Name, seq<Name>>, a: Name)
    requires Mutual(l, r)
    ensures Mutual(WithList(l, a), WithList(r, a))
  {
    var l', r' := WithList(l, a), WithList(r, a);
    forall m, n | m in l' && n in l' ensures n in Items(l'[m]) <==> m in Items(r'[n]) {
      if m in l && n in l {
        assert n in Items(l[m]) <==> m in Items(r[n]);
      }
    }
  }

  lemma MutualAdd(l: map<Name, seq<Name>>, r: map<Name, seq<Name>>, a: Name, b: Name)
    requires Mutual(l, r) && a in l && b in l && b !in Items(l[a])
    ensures Mutual(Appended(l, a, b), Appended(r, b, a))
  {
    ItemsAppend(l[a], [b]);
    ItemsAppend(r[b], [a]);
    NoDupSnoc(l[a], b);
    NoDupSnoc(r[b], a);
    assert a !in Items(r[b]);
  }

  lemma EdgesOfList(l: map<Name, seq<Name>>, a: Name)
    ensures EdgesOf(WithList(l, a)) == WithNode(EdgesOf(l), a)
  {
    assert Items<Name>([]) == {};
  }

  lemma EdgesOfAppended(l: map<Name, seq<Name>>, a: Name, b: Name)
    requires a in l
    ensures EdgesOf(if b in Items(l[a]) then l else Appended(l, a, b)) == EdgesOf(l)[a := EdgesOf(l)[a] + {b}]
  {
    ItemsAppend(l[a], [b]);
    assert Items([b]) == {b};
    var g := EdgesOf(l);
    if b in Items(l[a]) {
      assert g[a] + {b} == g[a];
    }
  }

  lemma EdgesAdded(l: map<Name, seq<Name>>, a: Name, b: Name)
    ensures var m := WithList(WithList(l, a), b);
            EdgesOf(if b in Items(m[a]) then m else Appended(m, a, b)) == WithEdge(EdgesOf(l), a, b)
  {
    EdgesOfList(l, a);
    EdgesOfList(WithList(l, a), b);
    EdgesOfAppended(WithList(WithList(l, a), b), a, b);
  }

  // ------------------------------------------------------------ the graph

  // The fields of the entries, by the name of the entry.
  class DependencyGraph {
    var dependsOn: map<Name, seq<Name>>
    var dependedOnBy: map<Name, seq<Name>>
    var visited: set<Name>
    var done: set<Name>

    ghost predicate Valid()
      reads this
    {
      Mutual(dependsOn, dependedOnBy)
    }

    ghost function Deps(): Graph<Name>
      reads this
    {
      EdgesOf(dependsOn)
    }

    constructor ()
      ensures Valid() && Deps() == map[] && visited == {} && done == {}
    {
      dependsOn, dependedOnBy, visited, done := map[], map[], {}, {};
    }

    // The entry of a name, made if there is none.
    method Ensure(name: Name)
      requires Valid()
      modifies `dependsOn, `dependedOnBy
      ensures Valid() && dependsOn == WithList(old(dependsOn), name) && dependedOnBy == WithList(old(dependedOnBy), name)
    {
      MutualNode(dependsOn, dependedOnBy, name);
      if name !in dependsOn {
        dependsOn, dependedOnBy := dependsOn[name := []], dependedOnBy[name := []];
      }
    }

    // Makes depender depend on dependee, unless it does.
    method Add(depender: Name, dependee: Name)
      requires Valid()
      modifies `dependsOn, `dependedOnBy
      ensures Valid() && Deps() == WithEdge(old(Deps()), depender, dependee)
    {
      EdgesAdded(dependsOn, depender, dependee);
      Ensure(depender);
      Ensure(dependee);
      var present := Contains(dependsOn[depender], dependee);
      if present {
        return;
      }
      MutualAdd(dependsOn, dependedOnBy, depender, dependee);
      dependsOn := dependsOn[depender := dependsOn[depender] + [dependee]];
      dependedOnBy := dependedOnBy[dependee := dependedOnBy[dependee] + [depender]];
    }

    // Whether a cycle can be reached from e without the nodes that were done
    // when the search began (base); h is the graph without those.
    method FindCycles(e: Name, ghost base: set<Name>, ghost h: Graph<Name>) returns (r: bool)
      requires Valid() && e in dependsOn && Shows(dependsOn, base, h)
      requires Checking(h, base, visited, done) && Below(h, base, visited, e)
      modifies `visited, `done
      ensures visited == old(visited) && Checking(h, base, visited, done)
      ensures r <==> e !in base && Cyclic(h, e)
      ensures old(done) <= done && (r || e in done)
      decreases dependsOn.Keys - visited
    {
      if e in done {
        DoneHasNoCycle(h, base, visited, done, e);
        return false;
      }
      if e in visited {
        ReachRefl(h, e);
        return true;
      }
      ghost var was := visited;
      visited := visited + {e};
      var list := dependsOn[e];
      for i := 0 to |list|
        invariant visited == was + {e} && Checking(h, base, visited, done) && old(done) <= done
        invariant forall j :: 0 <= j < i ==> list[j] in done
      {
        assert list[i] in Items(list);
        BelowNext(h, base, visited, e, list[i]);
        var found := FindCycles(list[i], base, h);
        if found {
          CyclicAfterStep(h, e, list[i]);
          visited := visited - {e};
          CheckingShrinks(h, base, was, done, e);
          return true;
        }
      }
      visited := visited - {e};
      CheckingShrinks(h, base, was, done, e);
      CheckingGrows(h, base, was, done, e);
      done := done + {e};
      DoneHasNoCycle(h, base, visited, done, e);
      return false;
    }

    // Looks for a cycle from every entry that nothing depends on, skipping what
    // an earlier search has done.
    method Cycles() returns (r: bool)
      requires Valid() && visited == {}
      modifies `visited, `done
      ensures visited == {} && old(done) <= done
      ensures r <==> SomeRootFinds(Deps(), old(done))
      ensures Cleared(Without(Deps(), old(done)), done - old(done))
      ensures r || forall n :: Root(Deps(), n) ==> n in done
    {
      ghost var base, g := done, Deps();
      ghost var h := Without(g, base);
      var todo := dependsOn.Keys;
      while todo != {}
        invariant todo <= dependsOn.Keys && visited == {}
        invariant Checking(h, base, visited, done) && old(done) <= done
        invariant forall n :: Root(g, n) && n !in todo ==> n in done && !FoundFrom(g, base, n)
      {
        var n := Pick(todo);
        todo := todo - {n};
        RootIsUnneeded(dependsOn, dependedOnBy, n);
        if dependedOnBy[n] == [] {
          var found := FindCycles(n, base, h);
          if found {
            assert Root(g, n) && FoundFrom(g, base, n);
            return true;
          }
        }
      }
      return false;
    }
  }

  method Contains(list: seq<Name>, e: Name) returns (r: bool)
    ensures r <==> e in Items(list)
  {
    for i := 0 to |list|
      invariant e !in list[..i]
    {
      if list[i] == e {
        return true;
      }
    }
    return false;
  }

  lemma RootIsUnneeded(deps: map<Name, seq<Name>>, revs: map<Name, seq<Name>>, n: Name)
    requires Mutual(deps, revs) && n in deps
    ensures Root(EdgesOf(deps), n) <==> revs[n] == []
  {
    var g := EdgesOf(deps);
    if revs[n] != [] {
      var m := revs[n][0];
      assert m in Items(revs[n]);
      assert n in g[m];
    }
    forall m | m in g && n in g[m] ensures m in Items(revs[n]) {
    }
  }

  // h is the graph of the lists without the nodes in base.
  ghost predicate Shows(deps: map<Name, seq<Name>>, base: set<Name>, h: Graph<Name>) {
    forall n :: n in deps && n !in base ==> Succ(h, n) == Items(deps[n]) - base
  }

  // The state of a search: what became done since it began is cleared.
  ghost predicate Checking(h: Graph<Name>, base: set<Name>, visited: set<Name>, done: set<Name>) {
    base <= done && Cleared(h, done - base) && visited !! done
  }

  // The entries being visited lie on a path to a.
  ghost predicate Below(h: Graph<Name>, base: set<Name>, visited: set<Name>, a: Name) {
    a !in base ==> forall v :: v in visited ==> ReachPlus(h, v, a)
  }

  lemma BelowNext(h: Graph<Name>, base: set<Name>, visited: set<Name>, a: Name, b: Name)
    requires a in visited && a !in base && Below(h, base, visited - {a}, a)
    requires b in base || b in Succ(h, a)
    ensures Below(h, base, visited, b)
  {
    if b !in base {
      forall v | v in visited ensures ReachPlus(h, v, b) {
        if v == a {
          ReachPlusEdge(h, a, b);
        } else {
          ReachPlusSnoc(h, v, a, b);
        }
      }
    }
  }

  lemma DoneHasNoCycle(h: Graph<Name>, base: set<Name>, visited: set<Name>, done: set<Name>, a: Name)
    requires Checking(h, base, visited, done) && a in done
    ensures !(a !in base && Cyclic(h, a))
  {
    if a !in base {
      ClearedHasNoCycle(h, done - base, a);
    }
  }

  lemma CheckingShrinks(h: Graph<Name>, base: set<Name>, visited: set<Name>, done: set<Name>, a: Name)
    requires Checking(h, base, visited + {a}, done)
    ensures Checking(h, base, visited, done) && a !in done && a !in base
  {
    assert a in visited + {a};
  }

  lemma CheckingGrows(h: Graph<Name>, base: set<Name>, visited: set<Name>, done: set<Name>, a: Name)
    requires Checking(h, base, visited, done) && a !in visited && a !in done && Succ(h, a) <= done - base
    ensures Checking(h, base, visited, done + {a})
  {
    ClearedGrows(h, done - base, a);
    assert done + {a} - base == done - base + {a};
  }

  // When every node that was done is cleared in the whole graph, Cycles finds a
  // cycle exactly if one can be reached from an entry that nothing depends on.
  lemma CyclesExact(g: Graph<Name>, base: set<Name>)
    requires Cleared(g, base)
    ensures SomeRootFinds(g, base) <==> SomeRootReachesCycle(g)
  {
    forall n ensures FoundFrom(g, base, n) <==> Cyclic(g, n) {
      SkippingCleared(g, base, n);
    }
  }

  // Searching in between can make Cycles wrong: with 0 depending on 1, a search
  // leaves both done; when 1 and 2 then come to depend on each other, the next
  // search finds nothing from 0, which nothing depends on and which reaches the cycle.
  lemma StaleAnswer()
    ensures var before := WithEdge(map[], 0, 1);
            var after := WithEdge(WithEdge(before, 1, 2), 2, 1);
            Cleared(before, {0, 1}) && SomeRootReachesCycle(after) && !SomeRootFinds(after, {0, 1})
  {
    var g := WithEdge(map[], 0, 1);
    assert Succ(g, 0) == {1} && Succ(g, 1) == {};
    ClearedGrows(g, {}, 1);
    ClearedGrows(g, {1}, 0);
    assert {1} + {0} == {0, 1};
    var h := WithEdge(WithEdge(g, 1, 2), 2, 1);
    assert Succ(h, 0) == {1} && Succ(h, 1) == {2} && Succ(h, 2) == {1} && h.Keys == {0, 1, 2};
    assert 1 in h[0] && 2 in h[1];
    ReachEdge(h, 0, 1);
    ReachEdge(h, 2, 1);
    assert 2 in Succ(h, 1) && ReachPlus(h, 1, 1);
    assert Root(h, 0) && Cyclic(h, 0);
  }
}
