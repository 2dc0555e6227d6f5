// Enumerating the calling contexts of a call node, backwards from the node to
// the entry points.
module CallContexts {
  import opened DistinctSeqs
  import opened NodeTraces

  // callers lists, for a call node, the call sites of the function it is in;
  // a node without an entry has no summary.  limit is ignored unless positive.
  datatype CallState = CallState(callers: map<CallNode, seq<CallNode>>, entryPoints: set<CallNode>, limit: int)

  function Callers(p: CallState, c: CallNode): seq<CallNode> {
    if c in p.callers then p.callers[c] else []
  }

  lemma CallersAreListed(p: CallState, c: CallNode, x: CallNode)
    ensures x in Callers(p, c) <==> c in p.callers && x in p.callers[c]
  {
  }

  // ------------------------------------------------------------ what is enumerated

  // A caller chain from n on that meets no call node twice.
  ghost predicate Chain(p: CallState, n: CallNode, c: seq<CallNode>) {
    && c != [] && c[0] == n && NoDup(c)
    && forall i, j :: 0 <= i && j == i + 1 && j < |c| ==> c[j] in Callers(p, c[i])
  }

  // A chain is not followed further at an entry point or at the length limit.
  predicate Stops(p: CallState, c: seq<CallNode>)
    requires c != []
  {
    c[|c| - 1] in p.entryPoints || (p.limit > 0 && |c| >= p.limit)
  }

  // No proper prefix stops.
  ghost predicate Explored(p: CallState, n: CallNode, c: seq<CallNode>) {
    Chain(p, n, c) && forall k :: 0 < k < |c| ==> !Stops(p, c[..k])
  }

  // A chain that stops at its end and not before.
  ghost predicate Context(p: CallState, n: CallNode, c: seq<CallNode>) {
    Explored(p, n, c) && Stops(p, c)
  }

  function Reversed<T>(s: seq<T>): (r: seq<T>)
    ensures |r| == |s|
  {
    if s == [] then [] else Reversed(s[1..]) + [s[0]]
  }

  lemma {:induction false} ReversedSnoc<T>(s: seq<T>, x: T)
    ensures Reversed(s + [x]) == [x] + Reversed(s)
  {
    if s != [] {
      assert (s + [x])[1..] == s[1..] + [x];
      ReversedSnoc(s[1..], x);
    }
  }

  lemma {:induction false} ReversedTwice<T>(s: seq<T>)
    ensures Reversed(Reversed(s)) == s
  {
    if s != [] {
      ReversedTwice(s[1..]);
      ReversedSnoc(Reversed(s[1..]), s[0]);
    }
  }

  lemma {:induction false} ReversedAt<T>(s: seq<T>, k: nat)
    requires k < |s|
    ensures Reversed(s)[k] == s[|s| - 1 - k]
  {
    if |s| > 1 && k < |s| - 1 {
      ReversedAt(s[1..], k);
    }
  }

  // ------------------------------------------------------------ calling contexts

  // Outermost call first: each one is a call site of the function that the next
  // one calls from, the last one is n, none occurs twice; the first is an entry
  // point or reaches the limit, and no later one does.
  ghost predicate CallingContext(p: CallState, n: CallNode, s: seq<CallNode>) {
    && s != [] && s[|s| - 1] == n && NoDup(s)
    && CallsDown(p, s)
    && (s[0] in p.entryPoints || (p.limit > 0 && |s| >= p.limit))
    && NoneStops(p, s)
  }

  ghost predicate CallsDown(p: CallState, s: seq<CallNode>) {
    forall i, j :: 0 <= i && j == i + 1 && j < |s| ==> CallsInto(p, s[i], s[j])
  }

  // From no call but the first on is s complete.
  ghost predicate NoneStops(p: CallState, s: seq<CallNode>) {
    forall i :: 0 < i < |s| ==> s[i] !in p.entryPoints && (p.limit > 0 ==> |s| - i < p.limit)
  }

  ghost predicate CallsInto(p: CallState, caller: CallNode, c: CallNode) {
    c in p.callers && caller in p.callers[c]
  }

  ghost predicate Mirrored<T>(c: seq<T>, s: seq<T>) {
    |c| == |s| && (forall k :: 0 <= k < |s| ==> s[k] == c[|c| - 1 - k]) && forall k :: 0 <= k < |c| ==> c[k] == s[|s| - 1 - k]
  }

  lemma ReversedMirrors<T>(c: seq<T>)
    ensures Mirrored(c, Reversed(c))
  {
    forall k | 0 <= k < |c| ensures Reversed(c)[k] == c[|c| - 1 - k] && c[k] == Reversed(c)[|c| - 1 - k] {
      ReversedAt(c, k);
      ReversedAt(c, |c| - 1 - k);
    }
  }

  lemma MirroredNoDup<T>(c: seq<T>, s: seq<T>)
    requires Mirrored(c, s) && NoDup(c)
    ensures NoDup(s)
  {
  }

  lemma MirroredChain(p: CallState, n: CallNode, c: seq<CallNode>, s: seq<CallNode>)
    requires Mirrored(c, s) && c != []
    ensures Chain(p, n, c) <==> s[|s| - 1] == n && NoDup(s) && CallsDown(p, s)
  {
    if NoDup(s) {
      MirroredNoDup(s, c);
    }
    if NoDup(c) {
      MirroredNoDup(c, s);
    }
    if Chain(p, n, c) {
      forall i, j | 0 <= i && j == i + 1 && j < |s| ensures CallsInto(p, s[i], s[j]) {
        assert c[|c| - 1 - i] in Callers(p, c[|c| - 1 - j]);
      }
    }
    if CallsDown(p, s) {
      forall i, j | 0 <= i && j == i + 1 && j < |c| ensures c[j] in Callers(p, c[i]) {
        assert CallsInto(p, s[|s| - 1 - j], s[|s| - 1 - i]);
      }
    }
  }

  lemma PrefixStops(p: CallState, c: seq<CallNode>, s: seq<CallNode>, k: nat)
    requires Mirrored(c, s) && 0 < k <= |c|
    ensures Stops(p, c[..k]) <==> s[|s| - k] in p.entryPoints || (p.limit > 0 && k >= p.limit)
  {
    assert c[..k][k - 1] == c[k - 1] == s[|s| - k];
  }

  lemma ExploredMirrors(p: CallState, n: CallNode, c: seq<CallNode>, s: seq<CallNode>)
    requires Mirrored(c, s) && Explored(p, n, c)
    ensures NoneStops(p, s)
  {
    forall i | 0 < i < |s| ensures s[i] !in p.entryPoints && (p.limit > 0 ==> |s| - i < p.limit) {
      var k := |s| - i;
      PrefixStops(p, c, s, k);
    }
  }

  lemma MirrorExplored(p: CallState, n: CallNode, c: seq<CallNode>, s: seq<CallNode>)
    requires Mirrored(c, s) && Chain(p, n, c) && NoneStops(p, s)
    ensures Explored(p, n, c)
  {
    forall k | 0 < k < |c| ensures !Stops(p, c[..k]) {
      var i := |s| - k;
      PrefixStops(p, c, s, k);
      assert s[i] !in p.entryPoints && (p.limit > 0 ==> |s| - i < p.limit);
    }
  }

  lemma MirroredStops(p: CallState, n: CallNode, c: seq<CallNode>, s: seq<CallNode>)
    requires Mirrored(c, s) && c != []
    ensures Stops(p, c) <==> s[0] in p.entryPoints || (p.limit > 0 && |s| >= p.limit)
    ensures Explored(p, n, c) <==> Chain(p, n, c) && NoneStops(p, s)
  {
    if Explored(p, n, c) {
      ExploredMirrors(p, n, c, s);
    }
    if Chain(p, n, c) && NoneStops(p, s) {
      MirrorExplored(p, n, c, s);
    }
  }

  // The chains that the search looks for are the calling contexts turned round.
  lemma ContextReversed(p: CallState, n: CallNode, c: seq<CallNode>)
    ensures Context(p, n, c) <==> CallingContext(p, n, Reversed(c))
  {
    if c == [] {
      assert Reversed(c) == [];
    } else {
      ReversedMirrors(c);
      MirroredChain(p, n, c, Reversed(c));
      MirroredStops(p, n, c, Reversed(c));
    }
  }

  lemma ResultsAreContexts(p: CallState, n: CallNode, results: seq<seq<CallNode>>)
    requires forall c :: Context(p, n, c) <==> Reversed(c) in results
    ensures forall s :: s in results <==> CallingContext(p, n, s)
  {
    forall s ensures s in results <==> CallingContext(p, n, s) {
      ReversedTwice(s);
      ContextReversed(p, n, Reversed(s));
    }
  }

  // ------------------------------------------------------------ the search

  // d is c with one more caller, not on c yet.
  predicate Extends(p: CallState, c: seq<CallNode>, d: seq<CallNode>)
    requires c != []
  {
    |d| == |c| + 1 && d[..|c|] == c && d[|c|] in Callers(p, c[|c| - 1]) && d[|c|] !in c
  }

  // The state of the search: seen are all chains ever queued.
  ghost predicate Exploring(p: CallState, n: CallNode, seen: set<seq<CallNode>>, que: seq<seq<CallNode>>, found: seq<seq<CallNode>>) {
    && [n] in seen
    && (forall c :: c in seen ==> Explored(p, n, c))
    && NoDup(que) && Items(que) <= seen
    && NoDup(found) && Items(found) <= seen - Items(que)
    && (forall c :: c in Items(found) ==> Stops(p, c))
    && (forall c :: c in seen - Items(que) && Stops(p, c) ==> c in Items(found))
    && (forall c, d :: c in seen - Items(que) && !Stops(p, c) && Extends(p, c, d) ==> d in seen)
  }

  lemma ExploringStarts(p: CallState, n: CallNode)
    ensures Exploring(p, n, {[n]}, [[n]], [])
  {
    assert Explored(p, n, [n]);
  }

  lemma ExploredSnoc(p: CallState, n: CallNode, c: seq<CallNode>, d: seq<CallNode>)
    requires Explored(p, n, c) && !Stops(p, c) && Extends(p, c, d)
    ensures Explored(p, n, d)
  {
    var x := d[|c|];
    assert d == c + [x];
    NoDupSnoc(c, x);
    forall k | 0 < k < |d| ensures !Stops(p, d[..k]) {
      assert d[..k] == c[..k];
      assert c[..|c|] == c;
    }
  }

  lemma ExploringStops(p: CallState, n: CallNode, seen: set<seq<CallNode>>, que: seq<seq<CallNode>>, found: seq<seq<CallNode>>, c: seq<CallNode>)
    requires Exploring(p, n, seen, [c] + que, found) && c != [] && Stops(p, c)
    ensures Exploring(p, n, seen, que, found + [c])
  {
    NoDupCons(c, que);
    assert c !in Items(found);
    NoDupSnoc(found, c);
    ItemsAppend(found, [c]);
  }

  // A chain that does not stop is replaced by its extensions not seen yet.
  lemma ExploringExpands(p: CallState, n: CallNode, seen: set<seq<CallNode>>, que: seq<seq<CallNode>>, found: seq<seq<CallNode>>,
                         c: seq<CallNode>, pushed: seq<seq<CallNode>>)
    requires Exploring(p, n, seen, [c] + que, found) && c != [] && !Stops(p, c) && NoDup(pushed)
    requires forall d :: d in Items(pushed) <==> d !in seen && Extends(p, c, d)
    ensures Exploring(p, n, seen + Items(pushed), que + pushed, found)
  {
    NoDupCons(c, que);
    forall d | d in Items(pushed) ensures Explored(p, n, d) {
      ExploredSnoc(p, n, c, d);
    }
    ItemsAppend(que, pushed);
    NoDupAppend(que, pushed);
    var waiting := Items(que + pushed);
    forall e, d | e in seen + Items(pushed) - waiting && !Stops(p, e) && Extends(p, e, d) ensures d in seen + Items(pushed) {
      assert e in seen && e !in Items(que);
      if e != c {
        assert e !in Items([c] + que);
      }
    }
  }

  // With an empty queue every explored chain has been seen.
  lemma {:induction false} AllSeen(p: CallState, n: CallNode, seen: set<seq<CallNode>>, found: seq<seq<CallNode>>, c: seq<CallNode>)
    requires Exploring(p, n, seen, [], found) && Explored(p, n, c)
    ensures c in seen
    decreases |c|
  {
    if |c| == 1 {
      assert c == [n];
    } else {
      var d, x := c[..|c| - 1], c[|c| - 1];
      assert c == d + [x];
      NoDupSnoc(d, x);
      forall k | 0 < k < |d| ensures !Stops(p, d[..k]) {
        assert d[..k] == c[..k];
      }
      AllSeen(p, n, seen, found, d);
      assert c[|d|] in Callers(p, c[|d| - 1]);
      assert Extends(p, d, c);
    }
  }

  lemma ExploringDone(p: CallState, n: CallNode, seen: set<seq<CallNode>>, found: seq<seq<CallNode>>)
    requires Exploring(p, n, seen, [], found)
    ensures forall c :: c in Items(found) <==> Context(p, n, c)
  {
    forall c | Context(p, n, c) ensures c in Items(found) {
      AllSeen(p, n, seen, found, c);
    }
  }

  // Turning round every trace of a list loses none and makes none equal.
  lemma ReversedKeeps(a: seq<seq<CallNode>>, b: seq<seq<CallNode>>)
    requires NoDup(a) && |a| == |b| && forall i :: 0 <= i < |a| ==> b[i] == Reversed(a[i])
    ensures NoDup(b) && forall c :: c in a <==> Reversed(c) in b
  {
    forall i, j | 0 <= i < j < |b| ensures b[i] != b[j] {
      ReversedTwice(a[i]);
      ReversedTwice(a[j]);
    }
    forall c ensures c in a <==> Reversed(c) in b {
      if c in a {
        var i :| 0 <= i < |a| && a[i] == c;
        assert b[i] == Reversed(c);
      }
      if Reversed(c) in b {
        var i :| 0 <= i < |b| && b[i] == Reversed(c);
        ReversedTwice(c);
        ReversedTwice(a[i]);
      }
    }
  }

  // Once nothing is queued, the chains found are, turned round, the calling
  // contexts, each once.
  lemma FoundAreContexts(p: CallState, n: CallNode, seen: set<seq<CallNode>>, found: seq<seq<CallNode>>, results: seq<seq<CallNode>>)
    requires Exploring(p, n, seen, [], found)
    requires |found| == |results| && forall i :: 0 <= i < |found| ==> results[i] == Reversed(found[i])
    ensures NoDup(results) && forall s :: s in results <==> CallingContext(p, n, s)
  {
    ExploringDone(p, n, seen, found);
    ReversedKeeps(found, results);
    assert forall c :: c in found <==> c in Items(found);
    ResultsAreContexts(p, n, results);
  }

  // ------------------------------------------------------------ termination

  ghost function Nodes(p: CallState, n: CallNode): set<CallNode> {
    {n} + set k, c | k in p.callers && c in p.callers[k] :: c
  }

  lemma ExploredInUniverse(p: CallState, n: CallNode, c: seq<CallNode>)
    requires Explored(p, n, c)
    ensures c in Universe(Nodes(p, n))
  {
    forall x | x in c ensures x in Nodes(p, n) {
      var i :| 0 <= i < |c| && c[i] == x;
      if i > 0 {
        assert c[i] in Callers(p, c[i - 1]);
      }
    }
    InUniverse(c, Nodes(p, n));
  }

  lemma SeenGrows(p: CallState, n: CallNode, seen: set<seq<CallNode>>, pushed: seq<seq<CallNode>>)
    requires forall c :: c in Items(pushed) ==> Explored(p, n, c) && c !in seen
    ensures if pushed == [] then seen + Items(pushed) == seen
            else Universe(Nodes(p, n)) - (seen + Items(pushed)) < Universe(Nodes(p, n)) - seen
  {
    if pushed != [] {
      assert pushed[0] in Items(pushed);
      ExploredInUniverse(p, n, pushed[0]);
    }
  }

  // ------------------------------------------------------------ the code

  ghost function LabelsOf(trees: seq<NodeTree>): seq<seq<CallNode>> {
    seq(|trees|, i requires 0 <= i < |trees| => trees[i].labels)
  }

  // The keys of exactly the chains that were queued.
  ghost predicate KeysOf(keys: set<string>, seen: set<seq<CallNode>>) {
    forall c :: KeyOf(c) in keys <==> c in seen
  }

  lemma KeysGrow(keys: set<string>, seen: set<seq<CallNode>>, c: seq<CallNode>)
    requires KeysOf(keys, seen)
    ensures KeysOf(keys + {KeyOf(c)}, seen + {c})
  {
    forall d ensures KeyOf(d) in keys + {KeyOf(c)} <==> d in seen + {c} {
      if KeyOf(d) == KeyOf(c) {
        KeyInjective(d, c);
      }
    }
  }

  method IsRecursive(stack: NodeTree, call: CallNode) returns (r: bool)
    requires stack.Valid()
    ensures r <==> call in stack.labels
  {
    var cur: NodeTree? := stack;
    while cur != null
      invariant cur != null ==> cur.Valid() && cur.labels <= stack.labels
      invariant call in stack.labels ==> cur != null && call in cur.labels
      decreases if cur == null then 0 else cur.height
    {
      if cur.node == call {
        assert cur.labels[|cur.labels| - 1] == call;
        assert call in stack.labels[..|cur.labels|];
        return true;
      }
      if cur.parent != null {
        assert cur.labels == cur.parent.labels + [cur.node];
      }
      cur := cur.parent;
    }
    return false;
  }

  method HasReachedContextLimit(stack: NodeTree, limit: int) returns (r: bool)
    requires stack.Valid()
    ensures r <==> limit > 0 && |stack.labels| >= limit
  {
    if limit <= 0 {
      return false;
    }
    var counter := 0;
    var cur: NodeTree? := stack;
    while cur != null
      invariant 0 <= counter < limit
      invariant counter + (if cur == null then 0 else cur.height) == stack.height
      invariant cur != null ==> cur.Valid()
      decreases if cur == null then 0 else cur.height
    {
      counter := counter + 1;
      assert cur.parent != null ==> cur.height == cur.parent.height + 1;
      if counter >= limit {
        return true;
      }
      cur := cur.parent;
    }
    return false;
  }

  lemma LabelsOfAppend(a: seq<NodeTree>, b: seq<NodeTree>)
    ensures LabelsOf(a + b) == LabelsOf(a) + LabelsOf(b)
  {
  }

  lemma LabelsOfOne(t: NodeTree)
    ensures LabelsOf([t]) == [t.labels]
  {
  }

  lemma LabelsOfSnoc(a: seq<NodeTree>, t: NodeTree)
    ensures LabelsOf(a + [t]) == LabelsOf(a) + [t.labels]
  {
  }

  lemma ReverseStep(done: seq<CallNode>, rest: seq<CallNode>, x: CallNode)
    ensures done + Reversed(rest + [x]) == done + [x] + Reversed(rest)
  {
    ReversedSnoc(rest, x);
  }

  method ReverseCallStack(s: NodeTree) returns (res: NodeTree)
    requires s.Valid()
    ensures fresh(res) && res.Valid() && res.labels == Reversed(s.labels)
  {
    res := new NodeTree(s.node);
    var cur := s.parent;
    LabelsEnd(s);
    ReversedSnoc(LabelsFrom(cur), s.node);
    while cur != null
      invariant fresh(res) && res.Valid() && res.children == []
      invariant cur != null ==> cur.Valid()
      invariant Reversed(s.labels) == res.labels + Reversed(LabelsFrom(cur))
      decreases if cur == null then 0 else cur.height
    {
      ReverseStep(res.labels, LabelsFrom(cur.parent), cur.node);
      res := res.Add(cur.node);
      cur := cur.parent;
    }
  }

  method ReverseAll(trees: seq<NodeTree>) returns (res: seq<NodeTree>)
    requires forall t :: t in trees ==> t.Valid()
    ensures |res| == |trees| && forall i :: 0 <= i < |trees| ==> res[i].Valid() && res[i].labels == Reversed(trees[i].labels)
  {
    res := [];
    for i := 0 to |trees|
      invariant |res| == i && forall j :: 0 <= j < i ==> res[j].Valid() && res[j].labels == Reversed(trees[j].labels)
    {
      var t := ReverseCallStack(trees[i]);
      res := res + [t];
    }
  }

  // After i callers of the last node of c: pushed are the extensions made so far.
  ghost predicate Expanding(p: CallState, c: seq<CallNode>, seen: set<seq<CallNode>>, i: nat, pushed: seq<seq<CallNode>>, keys: set<string>)
    requires c != [] && i <= |Callers(p, c[|c| - 1])|
  {
    && NoDup(pushed) && KeysOf(keys, seen + Items(pushed))
    && forall d :: d in Items(pushed) <==> d !in seen && Extends(p, c, d) && d[|c|] in Callers(p, c[|c| - 1])[..i]
  }

  lemma ExpandingStep(p: CallState, c: seq<CallNode>, seen: set<seq<CallNode>>, i: nat, pushed: seq<seq<CallNode>>, keys: set<string>)
    requires c != [] && i < |Callers(p, c[|c| - 1])| && Expanding(p, c, seen, i, pushed, keys)
    ensures var x := Callers(p, c[|c| - 1])[i];
            if x in c || KeyOf(c + [x]) in keys then Expanding(p, c, seen, i + 1, pushed, keys)
            else Expanding(p, c, seen, i + 1, pushed + [c + [x]], keys + {KeyOf(c + [x])})
  {
    var callers := Callers(p, c[|c| - 1]);
    var x := callers[i];
    assert callers[..i + 1] == callers[..i] + [x];
    assert x !in c ==> Extends(p, c, c + [x]);
    assert KeyOf(c + [x]) in keys <==> c + [x] in seen + Items(pushed);
    if x in c || KeyOf(c + [x]) in keys {
      ExpandingSame(p, c, seen, i, pushed, keys, x);
    } else {
      ExpandingNew(p, c, seen, i, pushed, keys, x);
    }
  }

  // The next caller is on the chain, or its chain is queued already.
  lemma ExpandingSame(p: CallState, c: seq<CallNode>, seen: set<seq<CallNode>>, i: nat, pushed: seq<seq<CallNode>>, keys: set<string>, x: CallNode)
    requires c != [] && i < |Callers(p, c[|c| - 1])| && Expanding(p, c, seen, i, pushed, keys)
    requires x == Callers(p, c[|c| - 1])[i] && (x in c || c + [x] in seen + Items(pushed))
    ensures Expanding(p, c, seen, i + 1, pushed, keys)
  {
    var callers := Callers(p, c[|c| - 1]);
    assert callers[..i + 1] == callers[..i] + [x];
    forall d ensures d in Items(pushed) <==> d !in seen && Extends(p, c, d) && d[|c|] in callers[..i + 1] {
      ExtendedBy(p, c, d, x);
    }
  }

  lemma ExtendedBy(p: CallState, c: seq<CallNode>, d: seq<CallNode>, x: CallNode)
    ensures c != [] && Extends(p, c, d) && d[|c|] == x ==> d == c + [x] && x !in c
  {
  }

  // Its chain is new.
  lemma ExpandingNew(p: CallState, c: seq<CallNode>, seen: set<seq<CallNode>>, i: nat, pushed: seq<seq<CallNode>>, keys: set<string>, x: CallNode)
    requires c != [] && i < |Callers(p, c[|c| - 1])| && Expanding(p, c, seen, i, pushed, keys)
    requires x == Callers(p, c[|c| - 1])[i] && Extends(p, c, c + [x]) && KeyOf(c + [x]) !in keys
    ensures Expanding(p, c, seen, i + 1, pushed + [c + [x]], keys + {KeyOf(c + [x])})
  {
    var callers, d0 := Callers(p, c[|c| - 1]), c + [x];
    assert callers[..i + 1] == callers[..i] + [x];
    KeysGrow(keys, seen + Items(pushed), d0);
    NoDupSnoc(pushed, d0);
    ItemsAppend(pushed, [d0]);
    assert Items([d0]) == {d0};
    assert seen + Items(pushed) + {d0} == seen + Items(pushed + [d0]);
    assert d0 !in seen + Items(pushed);
    forall d ensures d in Items(pushed + [d0]) <==> d !in seen && Extends(p, c, d) && d[|c|] in callers[..i + 1] {
      ExtendedBy(p, c, d, x);
    }
  }

  lemma ExpandingDone(p: CallState, c: seq<CallNode>, seen: set<seq<CallNode>>, pushed: seq<seq<CallNode>>, keys: set<string>)
    requires c != [] && Expanding(p, c, seen, |Callers(p, c[|c| - 1])|, pushed, keys)
    ensures NoDup(pushed) && KeysOf(keys, seen + Items(pushed))
    ensures forall d :: d in Items(pushed) <==> d !in seen && Extends(p, c, d)
  {
    var callers := Callers(p, c[|c| - 1]);
    assert callers[..|callers|] == callers;
  }

  // The extensions of elt by its first i callers have been made, in the tree.
  ghost predicate ExpandingIn(p: CallState, elt: NodeTree, seen: set<seq<CallNode>>, i: nat, added: seq<NodeTree>, keys: set<string>,
                              tree: set<NodeTree>)
    reads tree
  {
    && elt in tree && GoodTree(tree) && (forall t :: t in added ==> t in tree)
    && elt.labels != [] && i <= |Callers(p, elt.labels[|elt.labels| - 1])|
    && Expanding(p, elt.labels, seen, i, LabelsOf(added), keys)
  }

  // Makes every extension of elt that was never queued.
  method Expand(p: CallState, elt: NodeTree, inserted: set<string>, ghost seen: set<seq<CallNode>>, ghost tree: set<NodeTree>)
    returns (added: seq<NodeTree>, inserted': set<string>, ghost tree': set<NodeTree>)
    requires elt in tree && GoodTree(tree) && KeysOf(inserted, seen)
    modifies tree
    ensures tree <= tree' && fresh(tree' - tree)
    ensures elt.labels != [] && ExpandingIn(p, elt, seen, |Callers(p, elt.labels[|elt.labels| - 1])|, added, inserted', tree')
  {
    added, inserted', tree' := [], inserted, tree;
    LabelsEnd(elt);
    var callers := Callers(p, elt.node);
    assert Items(LabelsOf(added)) == {} && seen + {} == seen;
    for i := 0 to |callers|
      invariant tree <= tree' && fresh(tree' - tree)
      invariant ExpandingIn(p, elt, seen, i, added, inserted', tree')
    {
      added, inserted', tree' := ExpandOne(p, elt, callers[i], added, inserted', seen, tree', i);
    }
  }

  // The extension by one caller, unless it is on the chain or its chain was queued.
  method ExpandOne(p: CallState, elt: NodeTree, caller: CallNode, added: seq<NodeTree>, inserted: set<string>,
                   ghost seen: set<seq<CallNode>>, ghost tree: set<NodeTree>, ghost i: nat)
    returns (added': seq<NodeTree>, inserted': set<string>, ghost tree': set<NodeTree>)
    requires ExpandingIn(p, elt, seen, i, added, inserted, tree)
    requires i < |Callers(p, elt.labels[|elt.labels| - 1])| && caller == Callers(p, elt.labels[|elt.labels| - 1])[i]
    modifies tree
    ensures tree <= tree' && fresh(tree' - tree) && ExpandingIn(p, elt, seen, i + 1, added', inserted', tree')
  {
    added', inserted', tree' := added, inserted, tree;
    ExpandingStep(p, elt.labels, seen, i, LabelsOf(added), inserted);
    var recursive := IsRecursive(elt, caller);
    if !recursive {
      var newElt := elt.AddIn(caller, tree);
      tree' := tree + {newElt};
      if newElt.key !in inserted {
        LabelsOfSnoc(added, newElt);
        added', inserted' := added + [newElt], inserted + {newElt.key};
      }
    }
  }

  // The queue and the results, together with the chains they stand for.
  ghost predicate Searching(p: CallState, n: CallNode, que: seq<NodeTree>, reversed: seq<NodeTree>, inserted: set<string>,
                            seen: set<seq<CallNode>>, tree: set<NodeTree>)
    reads tree
  {
    && GoodTree(tree) && (forall t :: t in que ==> t in tree) && (forall t :: t in reversed ==> t in tree)
    && KeysOf(inserted, seen) && Exploring(p, n, seen, LabelsOf(que), LabelsOf(reversed))
  }

  // Takes the first trace off the queue: it is a result, or it is extended.
  method ProcessFirst(p: CallState, ghost n: CallNode, que: seq<NodeTree>, reversed: seq<NodeTree>, inserted: set<string>,
                      ghost seen: set<seq<CallNode>>, ghost tree: set<NodeTree>)
    returns (que': seq<NodeTree>, reversed': seq<NodeTree>, inserted': set<string>, ghost seen': set<seq<CallNode>>, ghost tree': set<NodeTree>)
    requires que != [] && Searching(p, n, que, reversed, inserted, seen, tree)
    modifies tree
    ensures tree <= tree' && fresh(tree' - tree) && Searching(p, n, que', reversed', inserted', seen', tree')
    ensures if seen' == seen then |que'| < |que| else Universe(Nodes(p, n)) - seen' < Universe(Nodes(p, n)) - seen
  {
    var elt := que[0];
    ghost var c, rest, found := elt.labels, LabelsOf(que[1..]), LabelsOf(reversed);
    LabelsOfAppend([elt], que[1..]);
    LabelsOfOne(elt);
    LabelsEnd(elt);
    assert que == [elt] + que[1..];
    que', reversed', inserted', seen', tree' := que[1..], reversed, inserted, seen, tree;
    var limited := HasReachedContextLimit(elt, p.limit);
    if elt.node in p.entryPoints || limited {
      ExploringStops(p, n, seen, rest, found, c);
      LabelsOfAppend(reversed, [elt]);
      reversed' := reversed + [elt];
    } else {
      var added;
      added, inserted', tree' := Expand(p, elt, inserted, seen, tree);
      ghost var pushed := LabelsOf(added);
      ExpandingDone(p, c, seen, pushed, inserted');
      ExploringExpands(p, n, seen, rest, found, c, pushed);
      SeenGrows(p, n, seen, pushed);
      LabelsOfAppend(que', added);
      que', seen' := que' + added, seen + Items(pushed);
    }
  }

  lemma SearchingStarts(p: CallState, n: CallNode, first: NodeTree)
    requires GoodTree({first}) && first.labels == [n] && first.key == KeyOf([n])
    ensures Searching(p, n, [first], [], {first.key}, {[n]}, {first})
  {
    ExploringStarts(p, n);
    KeysGrow({}, {}, [n]);
    LabelsOfOne(first);
    assert LabelsOf([]) == [];
  }

  // The calling contexts of n, each once, outermost call first.
  method GetAllCallingContexts(p: CallState, n: CallNode) returns (results: seq<NodeTree>)
    ensures forall t :: t in results ==> t.Valid()
    ensures NoDup(LabelsOf(results))
    ensures forall s :: s in LabelsOf(results) <==> CallingContext(p, n, s)
  {
    var first := new NodeTree(n);
    var que, inserted := [first], {first.key};
    var reversed: seq<NodeTree> := [];
    ghost var seen, tree := {[n]}, {first};
    SearchingStarts(p, n, first);
    while que != []
      invariant fresh(tree) && Searching(p, n, que, reversed, inserted, seen, tree)
      decreases Universe(Nodes(p, n)) - seen, |que|
    {
      que, reversed, inserted, seen, tree := ProcessFirst(p, n, que, reversed, inserted, seen, tree);
    }
    results := ReverseAll(reversed);
    FoundAreContexts(p, n, seen, LabelsOf(reversed), LabelsOf(results));
  }
}
