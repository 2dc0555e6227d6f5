// Only finitely many nodes: a node is known by the root it hangs on and the
// steps that lead to it, and there is a bound on the number of steps.
module NodeBounds {
  import opened DistinctSeqs
  import opened Options
  import opened EscapeLattice
  import opened LoadNodes

  // How a node hangs on another: as a subnode for a reason, or as its load node.
  datatype Step = SubStep(reason: Reason) | LoadStep

  ghost function StepTo(h: Links, n: Node): Step {
    if n in h.parent then SubStep(h.parent[n].reason) else LoadStep
  }

  ghost function Root(h: Links, n: Node): Node
    requires Ordered(h)
    decreases n.number
  {
    match Up(h, n)
    case None => n
    case Some(m) => Root(h, m)
  }

  // The steps from the root to n.
  ghost function StepsTo(h: Links, n: Node): seq<Step>
    requires Ordered(h)
    decreases n.number
  {
    match Up(h, n)
    case None => []
    case Some(m) => StepsTo(h, m) + [StepTo(h, n)]
  }

  // Two nodes at the same place are the same node.
  lemma {:induction false} PlaceIsNode(s: Group, m: Node, n: Node)
    requires ValidGroup(s)
    requires Root(s.links, m) == Root(s.links, n) && StepsTo(s.links, m) == StepsTo(s.links, n)
    ensures m == n
    decreases m.number
  {
    var h := s.links;
    var x, y := Up(h, m), Up(h, n);
    if x.Some? && y.Some? {
      var p, q := StepsTo(h, x.value), StepsTo(h, y.value);
      assert StepsTo(h, m) == p + [StepTo(h, m)] && StepsTo(h, n) == q + [StepTo(h, n)];
      assert p == (p + [StepTo(h, m)])[..|p|] == (q + [StepTo(h, n)])[..|q|] == q;
      PlaceIsNode(s, x.value, y.value);
      SameStepSameNode(s, m, n);
    }
  }

  lemma SameStepSameNode(s: Group, m: Node, n: Node)
    requires Placed(s) && Up(s.links, m) == Up(s.links, n) && Up(s.links, m).Some?
    requires StepTo(s.links, m) == StepTo(s.links, n)
    ensures m == n
  {
    if m in s.links.parent {
      assert s.links.parent[m] == s.links.parent[n];
    } else {
      assert s.links.loadBase[m] == s.links.loadBase[n];
    }
  }

  // How many subnode steps end the way to n.
  ghost function SubRun(h: Links, n: Node): nat
    requires Ordered(h)
    decreases n.number
  {
    if n in h.parent then SubRun(h, h.parent[n].base) + 1 else 0
  }

  ghost predicate SubRunsBounded(h: Links, k: nat)
    requires Ordered(h)
  {
    forall n :: SubRun(h, n) <= k
  }

  // With at most k subnode steps in a row there are at most k + 1 steps for each
  // load node on the history, and k more.
  lemma {:induction false} StepsBounded(h: Links, k: nat, n: Node)
    requires Ordered(h) && SubRunsBounded(h, k) && forall m :: m in h.loadBase ==> m !in h.parent
    ensures |StepsTo(h, n)| <= |LoadsOn(h, n)| * (k + 1) + SubRun(h, n)
    decreases n.number
  {
    match Up(h, n)
    case None =>
    case Some(m) =>
      StepsBounded(h, k, m);
      LoadsStep(h, n, m);
      if n !in h.parent {
        assert |StepsTo(h, n)| == |StepsTo(h, m)| + 1 && SubRun(h, m) <= k;
        Distribute(|LoadsOn(h, m)|, k + 1);
      }
  }

  lemma Distribute(x: nat, y: nat)
    ensures (x + 1) * y == x * y + y
  {
  }

  lemma LoadsStep(h: Links, n: Node, m: Node)
    requires Ordered(h) && Up(h, n) == Some(m) && forall x :: x in h.loadBase ==> x !in h.parent
    ensures |LoadsOn(h, n)| == |LoadsOn(h, m)| + if n in h.parent then 0 else 1
  {
    assert History(h, n) == [n] + History(h, m);
    HistoryNumbers(h, m);
    assert n !in History(h, m);
    if n in h.parent {
      assert LoadsOn(h, n) == LoadsOn(h, m);
    } else {
      assert LoadsOn(h, n) == LoadsOn(h, m) + {n};
    }
  }

  // The places there can be: a root and at most len steps for the given reasons.
  ghost function Places(roots: set<Node>, reasons: set<Reason>, len: nat): set<(Node, seq<Step>)> {
    set r, p | r in roots && p in SeqsUpTo(StepKinds(reasons), len) :: (r, p)
  }

  ghost function StepKinds(reasons: set<Reason>): set<Step> {
    {LoadStep} + set q | q in reasons :: SubStep(q)
  }

  // The group loads by the given operations only, makes subnodes for the given
  // reasons only, and never more than k of them in a row.
  ghost predicate Within(s: Group, ops: set<LoadOp>, reasons: set<Reason>, k: nat)
    requires Ordered(s.links)
  {
    && (forall n, op :: HasOp(s.loadOps, n, op) ==> op in ops)
    && (forall n :: n in s.links.parent ==> s.links.parent[n].reason in reasons)
    && SubRunsBounded(s.links, k)
  }

  ghost function MaxSteps(ops: set<LoadOp>, k: nat): nat {
    |ops| * (k + 1) + k
  }

  lemma PlaceIsOne(s: Group, roots: set<Node>, ops: set<LoadOp>, reasons: set<Reason>, k: nat, n: Node)
    requires ValidGroup(s) && Within(s, ops, reasons, k) && Root(s.links, n) in roots
    ensures (Root(s.links, n), StepsTo(s.links, n)) in Places(roots, reasons, MaxSteps(ops, k))
  {
    var h := s.links;
    StepsBounded(h, k, n);
    HistoryBounded(s, n);
    assert OpsOn(h, s.loadOps, n) <= ops by {
      forall l, op | l in History(h, n) && l in s.loadOps && op in s.loadOps[l] ensures op in ops {
        assert HasOp(s.loadOps, l, op);
      }
    }
    SubsetSize(OpsOn(h, s.loadOps, n), ops);
    TimesMono(|LoadsOn(h, n)|, |ops|, k + 1);
    StepsOver(h, reasons, n, k);
    InSeqsUpTo(StepsTo(h, n), StepKinds(reasons), MaxSteps(ops, k));
  }

  lemma TimesMono(x: nat, y: nat, z: nat)
    requires x <= y
    ensures x * z <= y * z
  {
  }

  lemma {:induction false} StepsOver(h: Links, reasons: set<Reason>, n: Node, k: nat)
    requires Ordered(h) && forall m :: m in h.parent ==> h.parent[m].reason in reasons
    ensures Over(StepsTo(h, n), StepKinds(reasons))
    decreases n.number
  {
    match Up(h, n)
    case None =>
    case Some(m) => StepsOver(h, reasons, m, k);
  }

  // However long the analysis runs, a group within these limits has no more
  // nodes over the roots than there are places.
  lemma NodesBounded(s: Group, nodes: set<Node>, roots: set<Node>, ops: set<LoadOp>, reasons: set<Reason>, k: nat)
    requires ValidGroup(s) && Within(s, ops, reasons, k)
    requires forall n :: n in nodes ==> Root(s.links, n) in roots
    ensures |nodes| <= |Places(roots, reasons, MaxSteps(ops, k))|
  {
    var place := map n | n in nodes :: (Root(s.links, n), StepsTo(s.links, n));
    forall n | n in nodes ensures place[n] in Places(roots, reasons, MaxSteps(ops, k)) {
      PlaceIsOne(s, roots, ops, reasons, k, n);
    }
    forall m, n | m in nodes && n in nodes && m != n ensures place[m] != place[n] {
      if place[m] == place[n] {
        PlaceIsNode(s, m, n);
      }
    }
    InjectionBounds(nodes, Places(roots, reasons, MaxSteps(ops, k)), place);
  }
}
