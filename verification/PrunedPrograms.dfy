// Whether the analysis of a program settles in spite of its pruned summaries:
// it does where the leaked nodes are always the same ones, and need not if a
// node can come to leak.
module PrunedPrograms {
  import opened Options
  import opened Paths
  import opened EscapeLattice
  import opened EscapeGraphs
  import opened SummarySimplifier
  import opened BlockFixpoint
  import opened MonotoneFramework
  import opened WholeProgram
  import opened ProgramFixpoint
  import opened ProgramRuns
  import opened EscapePrograms

  // ------------------------------------------------------------ the same nodes leak

  // The leaked nodes of g are its nodes in leaked, and a subnode is of the kind
  // of its parent.
  ghost predicate LeaksOnly(g: EscGraph, leaked: set<Node>) {
    && (forall n :: n in g.status ==> (g.status[n] == LEAKED <==> n in leaked))
    && (forall a, b :: HasEdge(g, Edge(a, b, Subnode)) ==> a.kind == b.kind)
  }

  // Graphs over u in which only the nodes of leaked leak.
  ghost function LeakLattice(u: set<Node>, leaked: set<Node>): Lattice<EscGraph, Atom> {
    EscLattice(u).(good := (g: EscGraph) => Good(g) && g.status.Keys <= u && LeaksOnly(g, leaked))
  }

  lemma JoinEdges(g: EscGraph, h: EscGraph, a: Node, b: Node)
    ensures b in Succ(Flow(Pointwise(g, h)), a) <==> Arc(g, a, b) || Arc(h, a, b)
    ensures forall k :: HasEdge(Join(g, h), Edge(a, b, k)) <==> HasEdge(g, Edge(a, b, k)) || HasEdge(h, Edge(a, b, k))
  {
  }

  // The leaked nodes of a closed graph point to leaked nodes only.
  lemma LeakedPointee(g: EscGraph, leaked: set<Node>, a: Node, b: Node)
    requires Good(g) && LeaksOnly(g, leaked) && a in leaked && Arc(g, a, b)
    ensures b in leaked
  {
    assert g.status[a] == LEAKED && g.status[a] <= g.status[b];
  }

  lemma LeakedIsClosed(g: EscGraph, h: EscGraph, leaked: set<Node>)
    requires Good(g) && Good(h) && LeaksOnly(g, leaked) && LeaksOnly(h, leaked)
    ensures Closed(Flow(Pointwise(g, h)), leaked)
  {
    forall a, b | a in leaked && b in Succ(Flow(Pointwise(g, h)), a) ensures b in leaked {
      JoinEdges(g, h, a, b);
      if Arc(g, a, b) {
        LeakedPointee(g, leaked, a, b);
      } else {
        LeakedPointee(h, leaked, a, b);
      }
    }
  }

  // What leaks in a join leaks in one of the two graphs already.
  lemma JoinLeaks(g: EscGraph, h: EscGraph, leaked: set<Node>, n: Node)
    requires Good(g) && Good(h) && LeaksOnly(g, leaked) && LeaksOnly(h, leaked) && n in Join(g, h).status
    ensures Join(g, h).status[n] == LEAKED <==> n in leaked
  {
    var p := Pointwise(g, h);
    if n in leaked {
      PushedIsAbove(p, n);
    }
    if Join(g, h).status[n] == LEAKED {
      var m := PushedAttained(p, n);
      LeakedIsClosed(g, h, leaked);
      ReachStays(Flow(p), leaked, m, n);
    }
  }

  lemma JoinLeaksOnly(g: EscGraph, h: EscGraph, leaked: set<Node>)
    requires Good(g) && Good(h) && LeaksOnly(g, leaked) && LeaksOnly(h, leaked)
    ensures LeaksOnly(Join(g, h), leaked)
  {
    forall n | n in Join(g, h).status ensures Join(g, h).status[n] == LEAKED <==> n in leaked {
      JoinLeaks(g, h, leaked, n);
    }
    forall a, b | HasEdge(Join(g, h), Edge(a, b, Subnode)) ensures a.kind == b.kind {
      JoinEdges(g, h, a, b);
    }
  }

  lemma LeakLatticeFits(u: set<Node>, leaked: set<Node>)
    ensures Fits(LeakLattice(u, leaked))
  {
    EscLaws(u);
    var k, l := EscLattice(u), LeakLattice(u, leaked);
    assert forall g :: l.good(g) ==> k.good(g);
    forall g, h | l.good(g) && l.good(h) ensures l.good(l.join(g, h)) {
      assert k.good(k.join(g, h));
      JoinLeaksOnly(g, h, leaked);
    }
    assert l.good(EMPTY);
  }

  // A part of the graph, with the statuses of its nodes.
  lemma PartLeaksOnly(g: EscGraph, part: EscGraph, leaked: set<Node>)
    requires LeaksOnly(g, leaked) && LessEq(part, g)
    requires forall n :: n in part.status ==> part.status[n] == g.status[n]
    ensures LeaksOnly(part, leaked)
  {
  }

  lemma ReachablePartIsGood(g: EscGraph, roots: seq<Node>)
    requires Good(g)
    ensures Good(ReachablePart(g, roots)) && LessEq(ReachablePart(g, roots), g)
  {
    var keep := set n | n in g.status && FromRoots(g, roots, n);
    forall a, b | a in keep && b in Succ(Flow(g), a) ensures b in keep {
      FromRootsStep(g, roots, a, b);
      assert Arc(g, a, b);
    }
    RestrictedIsGood(g, keep);
  }

  lemma SimplifiedIsGood(g: EscGraph, subnodes: set<Node>)
    requires Good(g)
    ensures Good(Simplified(g, subnodes)) && LessEq(Simplified(g, subnodes), g)
  {
    var w := WithoutNodes(g, RemovableNodes(g, subnodes));
    WithoutNodesIsGood(g, RemovableNodes(g, subnodes));
    WithoutLeakedEdgesIsGood(w);
    LessEqTrans(Simplified(g, subnodes), w, g);
  }

  // A node that the greater graph removes has the status of its parents there,
  // and a load node that has not leaked has escaped, like its parents.
  lemma FixedLeaksAgree(g: EscGraph, h: EscGraph, subnodes: set<Node>, leaked: set<Node>)
    requires Good(g) && Good(h) && LessEq(g, h) && LeaksOnly(g, leaked) && LeaksOnly(h, leaked)
    ensures SubnodesAgree(g, h, subnodes) && LeaksAgree(g, h)
  {
    forall s, m | m in RemovableNodes(h, subnodes) && HasEdge(g, Edge(s, m, Subnode)) ensures StatusOf(g, s) == StatusOf(g, m) {
      EdgeEnds(g, Edge(s, m, Subnode));
      ReachRefl(Flow(h), m);
      assert Candidate(h, subnodes, m) && HasEdge(h, Edge(s, m, Subnode));
      assert s.kind == KindLoad && IntrinsicEscape(s) == IntrinsicEscape(m) == ESCAPED;
    }
  }

  // On these graphs pruning is monotone, for every program.
  lemma LeakLatticePrunes(q: EscProgram, u: set<Node>, leaked: set<Node>)
    ensures Prunable(q, LeakLattice(u, leaked))
  {
    var l := LeakLattice(u, leaked);
    forall f, g | f in q.cfgs && l.good(g) ensures l.good(ReachablePart(g, q.roots(f))) {
      ReachablePartIsGood(g, q.roots(f));
      PartLeaksOnly(g, ReachablePart(g, q.roots(f)), leaked);
    }
    forall g | l.good(g) ensures l.good(Simplified(g, q.subnodes)) {
      SimplifiedIsGood(g, q.subnodes);
      PartLeaksOnly(g, Simplified(g, q.subnodes), leaked);
    }
    forall g, h | l.good(g) && l.good(h) && LessEq(g, h) ensures SubnodesAgree(g, h, q.subnodes) && LeaksAgree(g, h) {
      FixedLeaksAgree(g, h, q.subnodes, leaked);
    }
  }

  // Where the leaked nodes are fixed, monotone instructions make a monotone
  // program.
  lemma FixedLeaksSettle(q: EscProgram, u: set<Node>, leaked: set<Node>)
    requires ValidSites(q) && MonotoneInstrs(q, LeakLattice(u, leaked))
    ensures ValidProgram(AsProgram(q)) && MonotoneProgram(AsProgram(q), LeakLattice(u, leaked))
  {
    EscProgramIsValid(q);
    LeakLatticeFits(u, leaked);
    LeakLatticePrunes(q, u, leaked);
    EscProgramIsMonotone(q, LeakLattice(u, leaked));
  }

  // Then no run of the analysis goes on for ever.
  lemma FixedLeaksEnd(q: EscProgram, u: set<Node>, leaked: set<Node>, run: nat -> Config<EscGraph>)
    requires ValidSites(q) && MonotoneInstrs(q, LeakLattice(u, leaked))
    requires Initial(AsProgram(q), run(0).state) && run(0).busy == None
    ensures exists i: nat :: !Moves(AsProgram(q), run(i), run(i + 1))
  {
    FixedLeaksSettle(q, u, leaked);
    RunEnds(AsProgram(q), LeakLattice(u, leaked), run);
  }

  // And when the worklist is empty the least solution has been found.
  lemma FixedLeaksLeast(q: EscProgram, u: set<Node>, leaked: set<Node>, run: seq<Config<EscGraph>>)
    requires ValidSites(q) && MonotoneInstrs(q, LeakLattice(u, leaked)) && IsRun(AsProgram(q), run)
    ensures var c := run[|run| - 1];
      c.busy == None && c.state.worklist == [] ==> LeastSolved(AsProgram(q), LeakLattice(u, leaked), c.state)
  {
    FixedLeaksSettle(q, u, leaked);
    RunIsLeast(AsProgram(q), LeakLattice(u, leaked), run);
  }

  // ------------------------------------------------------------ a node that comes to leak

  const A := Node(KindParamVar, 0)
  const B := Node(KindVar, 1)
  const AB := Edge(A, B, Internal)

  // The status that an instruction gives A and B: they leak if the callee, which
  // is function 0, points A to B.
  function Undone(callees: map<Func, EscGraph>): Status {
    if 0 in callees && HasEdge(callees[0], AB) then LEAKED else LOCAL
  }

  // One function of one block with one instruction, which calls the function and
  // points A to B.  A is visible to the caller.
  ghost function SelfUndoing(): EscProgram {
    EscProgram(map[0 := Cfg({0}, 0, map[0 := []], map[0 := []], map[0 := [0]])],
               map[(0, 0) := [Site(Instruction(0, 0), 0)]],
               (f: Func) => EMPTY,
               (f: Func, i: Instr, callees: map<Func, EscGraph>, g: EscGraph) => Join(g, OneEdge(A, B, Undone(callees))),
               (f: Func) => [0],
               (f: Func, b: Block, g: EscGraph) => g,
               (f: Func) => [A],
               {})
  }

  lemma SelfUndoingIsValid()
    ensures ValidProgram(AsProgram(SelfUndoing()))
  {
    assert ValidSites(SelfUndoing());
    EscProgramIsValid(SelfUndoing());
  }

  lemma UndoneGrows(c: map<Func, EscGraph>, c': map<Func, EscGraph>)
    requires Below(EscLattice({A, B}), c, c')
    ensures Undone(c) <= Undone(c')
  {
  }

  // Its instruction is monotone.
  lemma SelfUndoingMonotone()
    ensures MonotoneInstrs(SelfUndoing(), EscLattice({A, B}))
  {
    var q, l := SelfUndoing(), EscLattice({A, B});
    forall f, i, c: map<Func, EscGraph>, g | f in q.cfgs && AllGood(l, c) && l.good(g) ensures l.good(q.instr(f, i, c, g)) {
      OneEdgeKept(A, B, Undone(c), {});
      JoinIsLub(g, OneEdge(A, B, Undone(c)));
    }
    forall f, i, c: map<Func, EscGraph>, g, c': map<Func, EscGraph>, g'
      | f in q.cfgs && AllGood(l, c) && AllGood(l, c') && Below(l, c, c') && l.good(g) && l.good(g') && l.leq(g, g')
      ensures l.leq(q.instr(f, i, c, g), q.instr(f, i, c', g'))
    {
      UndoneGrows(c, c');
      OneEdgeKept(A, B, Undone(c), {});
      OneEdgeKept(A, B, Undone(c'), {});
      OneEdgeRaised(A, B, Undone(c), Undone(c'));
      JoinMono(g, g', OneEdge(A, B, Undone(c)), OneEdge(A, B, Undone(c')));
    }
  }

  lemma JoinEmpty(g: EscGraph)
    requires Good(g)
    ensures Join(EMPTY, g) == g
  {
    JoinCommutes(EMPTY, g);
    JoinIdempotent(g);
  }

  lemma RunOne(c: Cfg, b: Block, i: Instr, tf: Transfer<EscGraph>, e: Ends)
    requires b in c.preds && c.preds[b] == [] && b in c.instrs && c.instrs[b] == [i]
    ensures Out(c, tf, EMPTY, e, b) == tf(i, EMPTY)
  {
    JoinEmpty(EMPTY);
    assert RunInstrs(tf, [], EMPTY) == EMPTY;
  }

  lemma EdgeJoined(s: Status)
    ensures Join(EMPTY, OneEdge(A, B, s)) == OneEdge(A, B, s)
  {
    OneEdgeKept(A, B, s, {});
    JoinEmpty(OneEdge(A, B, s));
  }

  lemma UndoingCallees(s: map<Func, EscGraph>)
    requires 0 in s
    ensures Undone(Callees(SelfUndoing(), 0, 0, s)) == if HasEdge(s[0], AB) then LEAKED else LOCAL
  {
    assert Site(Instruction(0, 0), 0) in SelfUndoing().sites[(0, 0)];
    assert CalledIn(SelfUndoing(), 0, 0, 0);
  }

  // The block leaks the edge exactly if the summary has it.
  lemma UndoingBlock(e: Ends, s: map<Func, EscGraph>)
    requires 0 in s
    ensures EndGraph(SelfUndoing(), 0, 0, e, s) == OneEdge(A, B, if HasEdge(s[0], AB) then LEAKED else LOCAL)
  {
    var callees := Callees(SelfUndoing(), 0, 0, s);
    UndoingCallees(s);
    RunOne(SelfUndoing().cfgs[0], 0, 0, Instrs(SelfUndoing(), 0, callees), e);
    EdgeJoined(Undone(callees));
  }

  lemma ReturnOne(q: EscProgram, f: Func, e: Ends, b: Block)
    requires b in e && Good(e[b])
    ensures ReturnGraph(q, f, e, [b]) == q.bind(f, b, e[b])
  {
    JoinEmpty(e[b]);
    assert ReturnGraph(q, f, e, []) == EMPTY;
  }

  lemma OneEdgeReached(a: Node, b: Node, s: Status)
    requires a != b
    ensures ReachablePart(OneEdge(a, b, s), [a]) == OneEdge(a, b, s)
  {
    var g := OneEdge(a, b, s);
    ReachRefl(Flow(g), a);
    ReachEdge(Flow(g), a, b);
    assert a in [a];
    assert FromRoots(g, [a], a) && FromRoots(g, [a], b);
  }

  // The summary has the edge exactly if the block has not leaked it.
  lemma UndoingSummary(e: Ends, s: Status)
    requires 0 in e && e[0] == OneEdge(A, B, s)
    ensures HasEdge(SummaryOf(SelfUndoing(), 0, e), AB) <==> s != LEAKED
  {
    OneEdgeKept(A, B, s, {});
    ReturnOne(SelfUndoing(), 0, e, 0);
    OneEdgeReached(A, B, s);
  }

  // No summary agrees with its block.
  lemma SelfUndoingUnsolved(s: State<EscGraph>)
    ensures !Solved(AsProgram(SelfUndoing()), s)
  {
    var p := AsProgram(SelfUndoing());
    ReachRefl(Steps(p.cfgs[0]), 0);
    if WholeProgram.Shaped(p, s) && 0 in s.ends[0] && Solves(p, s, 0, 0) {
      UndoingBlock(s.ends[0], s.finals);
      UndoingSummary(s.ends[0], if HasEdge(s.finals[0], AB) then LEAKED else LOCAL);
      assert s.finals[0] != p.summarize(0, s.ends[0]);
    }
  }

  // With monotone instructions pruning alone can keep the analysis from
  // settling: no run ever empties the worklist.
  lemma SelfUndoingNeverEnds(run: seq<Config<EscGraph>>)
    requires IsRun(AsProgram(SelfUndoing()), run)
    ensures ValidProgram(AsProgram(SelfUndoing())) && MonotoneInstrs(SelfUndoing(), EscLattice({A, B}))
    ensures var c := run[|run| - 1]; c.busy == None ==> c.state.worklist != []
  {
    SelfUndoingIsValid();
    SelfUndoingMonotone();
    RunIsSafe(AsProgram(SelfUndoing()), run);
    SelfUndoingUnsolved(run[|run| - 1].state);
  }

  // And there are runs of every length.
  lemma {:induction false} SelfUndoingRuns(n: nat) returns (run: seq<Config<EscGraph>>)
    ensures IsRun(AsProgram(SelfUndoing()), run) && |run| == n + 1
  {
    if n == 0 {
      run := [Config(State(map[0 := map[]], map[0 := [0]], map[0 := EMPTY], map[0 := map[]], [0]), None)];
    } else {
      var before := SelfUndoingRuns(n - 1);
      SelfUndoingNeverEnds(before);
      var d := RunGoesOn(AsProgram(SelfUndoing()), before);
      run := before + [d];
    }
  }
}
