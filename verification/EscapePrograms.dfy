// The escape analysis of a program: blocks are processed over escape graphs,
// and summaries are pruned.  Such a program is a valid one, and it is monotone
// where its instructions and pruning are.
module EscapePrograms {
  import opened Paths
  import opened EscapeLattice
  import opened EscapeGraphs
  import opened SummarySimplifier
  import opened BlockFixpoint
  import opened MonotoneFramework
  import opened WholeProgram
  import opened ProgramFixpoint

  // What the analysis is given.  instr is the transfer of an instruction, which
  // may look at the summaries of the functions called in its block; exits
  // lists the blocks of a function that return, and bind adds the results
  // returned there; roots are the nodes a caller can see.  subnodes are the
  // nodes that have a parent.
  datatype EscProgram = EscProgram(
    cfgs: map<Func, Cfg>,
    sites: map<(Func, Block), seq<Site>>,
    initial: Func -> EscGraph,
    instr: (Func, Instr, map<Func, EscGraph>, EscGraph) -> EscGraph,
    exits: Func -> seq<Block>,
    bind: (Func, Block, EscGraph) -> EscGraph,
    roots: Func -> seq<Node>,
    subnodes: set<Node>)

  ghost predicate CalledIn(q: EscProgram, f: Func, b: Block, c: Func) {
    (f, b) in q.sites && exists i :: Site(i, c) in q.sites[(f, b)]
  }

  // The summaries of the functions called in block b of f.
  ghost function Callees(q: EscProgram, f: Func, b: Block, finals: map<Func, EscGraph>): map<Func, EscGraph> {
    map c | c in finals && CalledIn(q, f, b, c) :: finals[c]
  }

  function Instrs(q: EscProgram, f: Func, callees: map<Func, EscGraph>): Transfer<EscGraph> {
    (i: Instr, g: EscGraph) => q.instr(f, i, callees, g)
  }

  // The graph at the end of a block: the right-hand side of its equation.
  ghost function EndGraph(q: EscProgram, f: Func, b: Block, ends: Ends, finals: map<Func, EscGraph>): EscGraph {
    if f in q.cfgs && b in q.cfgs[f].preds && b in q.cfgs[f].instrs then
      Out(q.cfgs[f], Instrs(q, f, Callees(q, f, b, finals)), q.initial(f), ends, b)
    else EMPTY
  }

  // The merge, in order, of the graphs of those returning blocks that have one,
  // each time with the results bound.
  ghost function ReturnGraph(q: EscProgram, f: Func, ends: Ends, blocks: seq<Block>): EscGraph {
    if blocks == [] then EMPTY
    else
      var rest, last := ReturnGraph(q, f, ends, blocks[..|blocks| - 1]), blocks[|blocks| - 1];
      if last in ends then q.bind(f, last, Join(rest, ends[last])) else rest
  }

  ghost function SummaryOf(q: EscProgram, f: Func, ends: Ends): EscGraph {
    Simplified(ReachablePart(ReturnGraph(q, f, ends, q.exits(f)), q.roots(f)), q.subnodes)
  }

  ghost function AsProgram(q: EscProgram): Program<EscGraph> {
    Program(q.cfgs, q.sites,
            (f: Func, b: Block, ends: Ends, finals: map<Func, EscGraph>) => EndGraph(q, f, b, ends, finals),
            (f: Func, ends: Ends) => SummaryOf(q, f, ends),
            EMPTY)
  }

  // ------------------------------------------------------------ a valid program

  ghost predicate ValidSites(q: EscProgram) {
    && (forall f :: f in q.cfgs ==> ValidCfg(q.cfgs[f]))
    && (forall f, b, i, c {:trigger CallsAt(AsProgram(q), f, b, i, c)} ::
          CallsAt(AsProgram(q), f, b, i, c) ==> i.block == b && c in q.cfgs)
  }

  lemma CalleesLocal(q: EscProgram, f: Func, b: Block, s: map<Func, EscGraph>, s': map<Func, EscGraph>)
    requires SameCallees(AsProgram(q), f, b, s, s')
    ensures Callees(q, f, b, s) == Callees(q, f, b, s')
  {
    forall c | CalledIn(q, f, b, c) ensures c in s && c in s' && s[c] == s'[c] {
      var i :| Site(i, c) in q.sites[(f, b)];
      assert CallsAt(AsProgram(q), f, b, i, c);
    }
  }

  lemma EndGraphLocal(q: EscProgram, f: Func, b: Block, e: Ends, e': Ends, s: map<Func, EscGraph>, s': map<Func, EscGraph>)
    requires f in q.cfgs && SamePreds(q.cfgs[f], b, e, e') && SameCallees(AsProgram(q), f, b, s, s')
    ensures EndGraph(q, f, b, e, s) == EndGraph(q, f, b, e', s')
  {
    CalleesLocal(q, f, b, s, s');
    var c := q.cfgs[f];
    if b in c.preds && b in c.instrs {
      forall p | p in c.preds[b] ensures (p in e <==> p in e') && (p in e ==> e[p] == e'[p]) {
        assert HasPred(c, b, p);
      }
      BlockResultLocal(c, JOIN, EMPTY, Instrs(q, f, Callees(q, f, b, s)), q.initial(f), e, e', b);
    }
  }

  // The callees of a block are those of its call sites.
  lemma CalleesAreCalled(q: EscProgram, f: Func, b: Block, finals: map<Func, EscGraph>, c: Func)
    ensures c in Callees(q, f, b, finals) <==> c in finals && exists i :: CallsAt(AsProgram(q), f, b, i, c)
    ensures c in Callees(q, f, b, finals) ==> Callees(q, f, b, finals)[c] == finals[c]
  {
    if CalledIn(q, f, b, c) {
      var i :| Site(i, c) in q.sites[(f, b)];
      assert CallsAt(AsProgram(q), f, b, i, c);
    }
  }

  // A block's graph is what flows through the block, from the merge of its
  // predecessors and with the summaries of its callees.
  lemma EndGraphFlows(q: EscProgram, l: Lattice<EscGraph, Atom>, f: Func, b: Block, ends: Ends, finals: map<Func, EscGraph>, v: EscGraph)
    requires Fits(l) && f in q.cfgs && ValidCfg(q.cfgs[f]) && b in q.cfgs[f].blocks
    requires AllGood(l, ends) && l.good(q.initial(f))
    ensures AsProgram(q).transfer(f, b, ends, finals) == v <==>
      FlowsThrough(q.cfgs[f], l, Instrs(q, f, Callees(q, f, b, finals)), q.initial(f), ends, b, v)
  {
    BlockOutFlows(q.cfgs[f], l, Instrs(q, f, Callees(q, f, b, finals)), q.initial(f), ends, b, v);
  }

  // A block's graph depends on nothing but its predecessors and the summaries
  // of its callees.
  lemma EscProgramIsValid(q: EscProgram)
    requires ValidSites(q)
    ensures ValidProgram(AsProgram(q))
  {
    var p := AsProgram(q);
    forall f: Func, b: Block, e: Ends, e': Ends, s: map<Func, EscGraph>, s': map<Func, EscGraph>
      | f in p.cfgs && SamePreds(p.cfgs[f], b, e, e') && SameCallees(p, f, b, s, s')
      ensures p.transfer(f, b, e, s) == p.transfer(f, b, e', s')
    {
      EndGraphLocal(q, f, b, e, e', s, s');
    }
  }

  // ------------------------------------------------------------ a monotone program

  // The instructions and the binding of results are monotone on l, and binding
  // only adds.
  ghost predicate MonotoneInstrs(q: EscProgram, l: Lattice<EscGraph, Atom>) {
    && (forall f :: f in q.cfgs ==> l.good(q.initial(f)))
    && (forall f, i, c: map<Func, EscGraph>, g {:trigger q.instr(f, i, c, g)} ::
          f in q.cfgs && AllGood(l, c) && l.good(g) ==> l.good(q.instr(f, i, c, g)))
    && (forall f, i, c: map<Func, EscGraph>, g, c': map<Func, EscGraph>, g'
          {:trigger q.instr(f, i, c, g), q.instr(f, i, c', g')} ::
          f in q.cfgs && AllGood(l, c) && AllGood(l, c') && Below(l, c, c') && l.good(g) && l.good(g') && l.leq(g, g')
          ==> l.leq(q.instr(f, i, c, g), q.instr(f, i, c', g')))
    && (forall f, b, g {:trigger q.bind(f, b, g)} :: f in q.cfgs && l.good(g) ==> l.good(q.bind(f, b, g)) && l.leq(g, q.bind(f, b, g)))
    && (forall f, b, g, g' {:trigger q.bind(f, b, g), q.bind(f, b, g')} ::
          f in q.cfgs && l.good(g) && l.good(g') && l.leq(g, g') ==> l.leq(q.bind(f, b, g), q.bind(f, b, g')))
  }

  // Pruning stays in l, and is monotone there.
  ghost predicate Prunable(q: EscProgram, l: Lattice<EscGraph, Atom>) {
    && (forall f, g :: f in q.cfgs && l.good(g) ==> l.good(ReachablePart(g, q.roots(f))))
    && (forall g :: l.good(g) ==> l.good(Simplified(g, q.subnodes)))
    && (forall g, h :: l.good(g) && l.good(h) && LessEq(g, h) ==> SubnodesAgree(g, h, q.subnodes) && LeaksAgree(g, h))
  }

  // The order of a lattice of escape graphs is the order of escape graphs.
  lemma OrderIsLessEq(l: Lattice<EscGraph, Atom>, g: EscGraph, h: EscGraph)
    requires Fits(l) && l.good(g) && l.good(h)
    ensures l.leq(g, h) <==> LessEq(g, h)
  {
    JoinIsLub(g, h);
    var j := l.join(g, h);
    assert j == Join(g, h) && l.leq(g, j) && l.leq(h, j);
    if l.leq(g, h) {
      assert l.leq(h, h) && l.leq(j, h);
      assert j == h;
    }
    if LessEq(g, h) {
      JoinIdempotent(h);
      assert IsJoin(h, g, h);
      JoinUnique(h, g, h);
    }
  }

  lemma InstrsMonotone(q: EscProgram, l: Lattice<EscGraph, Atom>, f: Func, c: map<Func, EscGraph>)
    requires MonotoneInstrs(q, l) && Laws(l) && f in q.cfgs && AllGood(l, c)
    ensures Monotone(l, Instrs(q, f, c))
  {
    assert Below(l, c, c);
    var tf := Instrs(q, f, c);
    forall i, g | l.good(g) ensures l.good(tf(i, g)) {
      assert l.good(q.instr(f, i, c, g));
    }
    forall i, g, g' | l.good(g) && l.good(g') && l.leq(g, g') ensures l.leq(tf(i, g), tf(i, g')) {
      assert l.leq(q.instr(f, i, c, g), q.instr(f, i, c, g'));
    }
  }

  // Greater summaries of the callees give greater results on the same graph.
  lemma {:induction false} RunInstrsAbove(q: EscProgram, l: Lattice<EscGraph, Atom>, f: Func, c: map<Func, EscGraph>, c': map<Func, EscGraph>,
                                          instrs: seq<Instr>, g: EscGraph)
    requires MonotoneInstrs(q, l) && Laws(l) && f in q.cfgs && AllGood(l, c) && AllGood(l, c') && Below(l, c, c') && l.good(g)
    ensures l.leq(RunInstrs(Instrs(q, f, c), instrs, g), RunInstrs(Instrs(q, f, c'), instrs, g))
  {
    if instrs != [] {
      var rest, last := instrs[..|instrs| - 1], instrs[|instrs| - 1];
      RunInstrsAbove(q, l, f, c, c', rest, g);
      InstrsMonotone(q, l, f, c);
      InstrsMonotone(q, l, f, c');
      RunInstrsGood(l, Instrs(q, f, c), rest, g);
      RunInstrsGood(l, Instrs(q, f, c'), rest, g);
      var r, r' := RunInstrs(Instrs(q, f, c), rest, g), RunInstrs(Instrs(q, f, c'), rest, g);
      assert l.leq(q.instr(f, last, c, r), q.instr(f, last, c', r'));
    }
  }

  lemma CalleesGood(q: EscProgram, l: Lattice<EscGraph, Atom>, f: Func, b: Block, s: map<Func, EscGraph>)
    requires AllGood(l, s)
    ensures AllGood(l, Callees(q, f, b, s))
  {
  }

  lemma EndGraphGood(q: EscProgram, l: Lattice<EscGraph, Atom>, f: Func, b: Block, e: Ends, s: map<Func, EscGraph>)
    requires MonotoneInstrs(q, l) && Fits(l) && f in q.cfgs && AllGood(l, e) && AllGood(l, s)
    ensures l.good(EndGraph(q, f, b, e, s))
  {
    var c, tf := q.cfgs[f], Instrs(q, f, Callees(q, f, b, s));
    InstrsMonotone(q, l, f, Callees(q, f, b, s));
    if b in c.preds && b in c.instrs {
      BlockOutGood(c, l, tf, q.initial(f), e, b);
    }
  }

  lemma EndGraphMono(q: EscProgram, l: Lattice<EscGraph, Atom>, f: Func, b: Block,
                     e: Ends, s: map<Func, EscGraph>, e': Ends, s': map<Func, EscGraph>)
    requires MonotoneInstrs(q, l) && Fits(l) && f in q.cfgs
    requires AllGood(l, e) && AllGood(l, e') && Below(l, e, e') && AllGood(l, s) && AllGood(l, s') && Below(l, s, s')
    ensures l.leq(EndGraph(q, f, b, e, s), EndGraph(q, f, b, e', s'))
  {
    var c, k, k', init := q.cfgs[f], Callees(q, f, b, s), Callees(q, f, b, s'), q.initial(f);
    if b in c.preds && b in c.instrs {
      var tf, tf' := Instrs(q, f, k), Instrs(q, f, k');
      InstrsMonotone(q, l, f, k);
      BlockOutMono(c, l, tf, init, e, e', b);
      BlockOutGood(c, l, tf, init, e', b);
      RunInstrsAbove(q, l, f, k, k', c.instrs[b], BlockIn(c, l.join, l.bottom, init, e', b));
      assert l.leq(BlockOut(c, l, tf, init, e, b), BlockOut(c, l, tf, init, e', b));
      assert l.leq(BlockOut(c, l, tf, init, e', b), BlockOut(c, l, tf', init, e', b));
    }
  }

  lemma {:induction false} ReturnGraphGood(q: EscProgram, l: Lattice<EscGraph, Atom>, f: Func, e: Ends, blocks: seq<Block>)
    requires MonotoneInstrs(q, l) && Fits(l) && f in q.cfgs && AllGood(l, e)
    ensures l.good(ReturnGraph(q, f, e, blocks))
  {
    if blocks != [] {
      var rest, last := ReturnGraph(q, f, e, blocks[..|blocks| - 1]), blocks[|blocks| - 1];
      ReturnGraphGood(q, l, f, e, blocks[..|blocks| - 1]);
      if last in e {
        assert l.good(l.join(rest, e[last]));
      }
    }
  }

  lemma {:induction false} ReturnGraphMono(q: EscProgram, l: Lattice<EscGraph, Atom>, f: Func, e: Ends, e': Ends, blocks: seq<Block>)
    requires MonotoneInstrs(q, l) && Fits(l) && f in q.cfgs && AllGood(l, e) && AllGood(l, e') && Below(l, e, e')
    ensures l.leq(ReturnGraph(q, f, e, blocks), ReturnGraph(q, f, e', blocks))
  {
    if blocks != [] {
      var rest, last := blocks[..|blocks| - 1], blocks[|blocks| - 1];
      ReturnGraphMono(q, l, f, e, e', rest);
      ReturnGraphGood(q, l, f, e, rest);
      ReturnGraphGood(q, l, f, e', rest);
      var r, r' := ReturnGraph(q, f, e, rest), ReturnGraph(q, f, e', rest);
      if last in e {
        ReturnMono(q, l, f, last, r, r', e[last], e'[last]);
      } else if last in e' {
        ReturnAbove(q, l, f, last, r', e'[last]);
        LeqTrans(l, r, r', q.bind(f, last, Join(r', e'[last])));
      }
    }
  }

  lemma ReturnMono(q: EscProgram, l: Lattice<EscGraph, Atom>, f: Func, b: Block, r: EscGraph, r': EscGraph, g: EscGraph, g': EscGraph)
    requires MonotoneInstrs(q, l) && Fits(l) && f in q.cfgs
    requires l.good(r) && l.good(r') && l.good(g) && l.good(g') && l.leq(r, r') && l.leq(g, g')
    ensures l.leq(q.bind(f, b, Join(r, g)), q.bind(f, b, Join(r', g')))
  {
    var j, j' := l.join(r, g), l.join(r', g');
    assert l.leq(r', j') && l.leq(g', j');
    LeqTrans(l, r, r', j');
    LeqTrans(l, g, g', j');
    assert l.good(j) && l.good(j') && l.leq(j, j');
  }

  lemma ReturnAbove(q: EscProgram, l: Lattice<EscGraph, Atom>, f: Func, b: Block, r: EscGraph, g: EscGraph)
    requires MonotoneInstrs(q, l) && Fits(l) && f in q.cfgs && l.good(r) && l.good(g)
    ensures l.leq(r, q.bind(f, b, Join(r, g)))
  {
    var j := l.join(r, g);
    assert l.good(j) && l.leq(r, j);
    LeqTrans(l, r, j, q.bind(f, b, j));
  }

  lemma LeqTrans(l: Lattice<EscGraph, Atom>, x: EscGraph, y: EscGraph, z: EscGraph)
    requires Laws(l) && l.leq(x, y) && l.leq(y, z)
    ensures l.leq(x, z)
  {
  }

  // The merge holds the graph of every returning block, and what is above these
  // and the results bound there is above the merge.
  lemma {:induction false} ReturnGraphHolds(q: EscProgram, l: Lattice<EscGraph, Atom>, f: Func, e: Ends, blocks: seq<Block>, b: Block)
    requires MonotoneInstrs(q, l) && Fits(l) && f in q.cfgs && AllGood(l, e) && b in blocks && b in e
    ensures l.leq(q.bind(f, b, e[b]), ReturnGraph(q, f, e, blocks))
  {
    var rest, last := blocks[..|blocks| - 1], blocks[|blocks| - 1];
    assert blocks == rest + [last];
    ReturnGraphGood(q, l, f, e, rest);
    var r, g := ReturnGraph(q, f, e, rest), ReturnGraph(q, f, e, blocks);
    if b == last {
      var j := l.join(r, e[b]);
      assert l.good(j) && l.leq(e[b], j);
    } else {
      ReturnGraphHolds(q, l, f, e, rest, b);
      if last in e {
        ReturnAbove(q, l, f, last, r, e[last]);
      }
      LeqTrans(l, q.bind(f, b, e[b]), r, g);
    }
  }

  lemma {:induction false} ReturnGraphBelow(q: EscProgram, l: Lattice<EscGraph, Atom>, f: Func, e: Ends, blocks: seq<Block>, z: EscGraph)
    requires MonotoneInstrs(q, l) && Fits(l) && f in q.cfgs && AllGood(l, e) && l.good(z)
    requires forall b :: b in blocks && b in e ==> l.leq(e[b], z) && l.leq(q.bind(f, b, z), z)
    ensures l.leq(ReturnGraph(q, f, e, blocks), z)
  {
    if blocks != [] {
      var rest, last := blocks[..|blocks| - 1], blocks[|blocks| - 1];
      assert blocks == rest + [last];
      ReturnGraphBelow(q, l, f, e, rest, z);
      ReturnGraphGood(q, l, f, e, rest);
      if last in e {
        var j := l.join(ReturnGraph(q, f, e, rest), e[last]);
        assert l.good(j) && l.leq(j, z);
        LeqTrans(l, q.bind(f, last, j), q.bind(f, last, z), z);
      }
    }
  }

  // ------------------------------------------------------------ pruning

  // What the summary holds is in the merge, with its status there, and can be
  // reached from the roots; everything reachable that is not a load node stays.
  lemma SummaryHolds(q: EscProgram, f: Func, ends: Ends, n: Node)
    requires Good(ReturnGraph(q, f, ends, q.exits(f)))
    ensures var r, s := ReturnGraph(q, f, ends, q.exits(f)), SummaryOf(q, f, ends);
      && (n in s.status ==> n in r.status && s.status[n] == r.status[n] && FromRoots(r, q.roots(f), n))
      && (n in r.status && FromRoots(r, q.roots(f), n) && n.kind != KindLoad ==> n in s.status)
  {
    var r := ReturnGraph(q, f, ends, q.exits(f));
    ReachRefl(Flow(ReachablePart(r, q.roots(f))), n);
  }

  lemma ReachablePartMono(g: EscGraph, h: EscGraph, roots: seq<Node>)
    requires Good(g) && Good(h) && LessEq(g, h)
    ensures LessEq(ReachablePart(g, roots), ReachablePart(h, roots))
  {
    forall n | FromRoots(g, roots, n) ensures FromRoots(h, roots, n) {
      var r :| r in roots && Reach(Flow(g), r, n);
      FlowMono(g, h, r, n);
    }
    var s, t := ReachablePart(g, roots), ReachablePart(h, roots);
    forall e | HasEdge(s, e) ensures HasEdge(t, e) {
      assert HasEdge(g, e) && HasEdge(h, e);
      EdgeEnds(g, e);
    }
  }

  lemma SummaryGood(q: EscProgram, l: Lattice<EscGraph, Atom>, f: Func, e: Ends)
    requires MonotoneInstrs(q, l) && Fits(l) && Prunable(q, l) && f in q.cfgs && AllGood(l, e)
    ensures l.good(SummaryOf(q, f, e))
  {
    ReturnGraphGood(q, l, f, e, q.exits(f));
  }

  lemma SummaryMono(q: EscProgram, l: Lattice<EscGraph, Atom>, f: Func, e: Ends, e': Ends)
    requires MonotoneInstrs(q, l) && Fits(l) && Prunable(q, l) && f in q.cfgs
    requires AllGood(l, e) && AllGood(l, e') && Below(l, e, e')
    ensures l.leq(SummaryOf(q, f, e), SummaryOf(q, f, e'))
  {
    var g, g' := ReturnGraph(q, f, e, q.exits(f)), ReturnGraph(q, f, e', q.exits(f));
    ReturnGraphGood(q, l, f, e, q.exits(f));
    ReturnGraphGood(q, l, f, e', q.exits(f));
    ReturnGraphMono(q, l, f, e, e', q.exits(f));
    OrderIsLessEq(l, g, g');
    PrunedMono(q, l, f, g, g');
  }

  lemma PrunedMono(q: EscProgram, l: Lattice<EscGraph, Atom>, f: Func, g: EscGraph, h: EscGraph)
    requires Fits(l) && Prunable(q, l) && f in q.cfgs && l.good(g) && l.good(h) && LessEq(g, h)
    ensures l.leq(Simplified(ReachablePart(g, q.roots(f)), q.subnodes), Simplified(ReachablePart(h, q.roots(f)), q.subnodes))
  {
    var s, t := ReachablePart(g, q.roots(f)), ReachablePart(h, q.roots(f));
    ReachablePartMono(g, h, q.roots(f));
    assert l.good(s) && l.good(t);
    SimplifiedMono(s, t, q.subnodes);
    OrderIsLessEq(l, Simplified(s, q.subnodes), Simplified(t, q.subnodes));
  }

  // With monotone instructions, and where pruning is monotone, the program is.
  lemma EscProgramIsMonotone(q: EscProgram, l: Lattice<EscGraph, Atom>)
    requires MonotoneInstrs(q, l) && Fits(l) && Prunable(q, l)
    ensures MonotoneProgram(AsProgram(q), l)
  {
    var p := AsProgram(q);
    forall f, b, e: Ends, s: map<Func, EscGraph> | f in p.cfgs && AllGood(l, e) && Summaries(p, l, s)
      ensures l.good(p.transfer(f, b, e, s))
    {
      EndGraphGood(q, l, f, b, e, s);
    }
    forall f, b, e: Ends, s: map<Func, EscGraph>, e': Ends, s': map<Func, EscGraph>
      | f in p.cfgs && AllGood(l, e) && AllGood(l, e') && Below(l, e, e') && Summaries(p, l, s) && Summaries(p, l, s') && Below(l, s, s')
      ensures l.leq(p.transfer(f, b, e, s), p.transfer(f, b, e', s'))
    {
      EndGraphMono(q, l, f, b, e, s, e', s');
    }
    forall f, e: Ends | f in p.cfgs && AllGood(l, e) ensures l.good(p.summarize(f, e)) {
      SummaryGood(q, l, f, e);
    }
    forall f, e: Ends, e': Ends | f in p.cfgs && AllGood(l, e) && AllGood(l, e') && Below(l, e, e')
      ensures l.leq(p.summarize(f, e), p.summarize(f, e'))
    {
      SummaryMono(q, l, f, e, e');
    }
  }
}
