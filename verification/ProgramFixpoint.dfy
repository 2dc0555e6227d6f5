// When transfer and summaries are monotone over a lattice of finite height,
// the analysis of a whole program ends, and with the least solution.
module ProgramFixpoint {
  import opened Options
  import opened MonotoneFramework
  import opened WholeProgram

  // A summary for every function.
  ghost predicate Summaries<G, A>(p: Program<G>, l: Lattice<G, A>, finals: map<Func, G>) {
    finals.Keys == p.cfgs.Keys && AllGood(l, finals)
  }

  // Greater graphs and summaries give greater ones, and analysis starts from
  // the least summary.
  ghost predicate MonotoneProgram<G(!new), A(!new)>(p: Program<G>, l: Lattice<G, A>) {
    && Laws(l) && p.empty == l.bottom
    && (forall f, b, e: map<Block, G>, s: map<Func, G> {:trigger p.transfer(f, b, e, s)} ::
          f in p.cfgs && AllGood(l, e) && Summaries(p, l, s) ==> l.good(p.transfer(f, b, e, s)))
    && (forall f, b, e: map<Block, G>, s: map<Func, G>, e': map<Block, G>, s': map<Func, G>
          {:trigger p.transfer(f, b, e, s), p.transfer(f, b, e', s')} ::
          f in p.cfgs && AllGood(l, e) && AllGood(l, e') && Below(l, e, e')
          && Summaries(p, l, s) && Summaries(p, l, s') && Below(l, s, s')
          ==> l.leq(p.transfer(f, b, e, s), p.transfer(f, b, e', s')))
    && (forall f, e: map<Block, G> {:trigger p.summarize(f, e)} :: f in p.cfgs && AllGood(l, e) ==> l.good(p.summarize(f, e)))
    && (forall f, e: map<Block, G>, e': map<Block, G> {:trigger p.summarize(f, e), p.summarize(f, e')} ::
          f in p.cfgs && AllGood(l, e) && AllGood(l, e') && Below(l, e, e') ==> l.leq(p.summarize(f, e), p.summarize(f, e')))
  }

  // In f, graphs and summary are at least what the equations give.
  ghost predicate AboveAt<G, A>(p: Program<G>, l: Lattice<G, A>, ends: map<Func, map<Block, G>>, finals: map<Func, G>, f: Func)
    requires f in p.cfgs && f in ends && f in finals
  {
    && AllGood(l, ends[f])
    && (forall b :: b in p.cfgs[f].blocks && Reachable(p.cfgs[f], b) ==> AboveBlock(p, l, ends[f], finals, f, b))
    && l.leq(p.summarize(f, ends[f]), finals[f])
  }

  ghost predicate AboveBlock<G, A>(p: Program<G>, l: Lattice<G, A>, e: map<Block, G>, finals: map<Func, G>, f: Func, b: Block) {
    b in e && l.leq(p.transfer(f, b, e, finals), e[b])
  }

  ghost predicate AboveEquations<G, A>(p: Program<G>, l: Lattice<G, A>, ends: map<Func, map<Block, G>>, finals: map<Func, G>) {
    && ends.Keys == p.cfgs.Keys && Summaries(p, l, finals)
    && forall f :: f in p.cfgs ==> AboveAt(p, l, ends, finals, f)
  }

  // In f, graphs and summary are at most what the equations give.
  ghost predicate BelowAt<G, A>(p: Program<G>, l: Lattice<G, A>, ends: map<Func, map<Block, G>>, finals: map<Func, G>, f: Func)
    requires f in ends && f in finals
  {
    && AllGood(l, ends[f])
    && (forall b :: b in ends[f] ==> l.leq(ends[f][b], p.transfer(f, b, ends[f], finals)))
    && l.leq(finals[f], p.summarize(f, ends[f]))
  }

  ghost predicate AllBelow<G, A>(l: Lattice<G, A>, ends: map<Func, map<Block, G>>, finals: map<Func, G>,
                                 ends': map<Func, map<Block, G>>, finals': map<Func, G>)
  {
    && (forall f :: f in ends ==> f in ends' && Below(l, ends[f], ends'[f]))
    && Below(l, finals, finals')
  }

  // What the analysis keeps: it climbs towards the least solution.
  ghost predicate Rising<G(!new), A(!new)>(p: Program<G>, l: Lattice<G, A>, ends: map<Func, map<Block, G>>, finals: map<Func, G>) {
    && ends.Keys == p.cfgs.Keys && Summaries(p, l, finals)
    && (forall f :: f in p.cfgs ==> BelowAt(p, l, ends, finals, f))
    && (forall x, y :: AboveEquations(p, l, x, y) ==> AllBelow(l, ends, finals, x, y))
  }

  // All equations hold, and every other solution is greater.
  ghost predicate LeastSolved<G(!new), A(!new)>(p: Program<G>, l: Lattice<G, A>, s: State<G>) {
    && Solved(p, s)
    && AboveEquations(p, l, s.ends, s.finals)
    && (forall x, y :: AboveEquations(p, l, x, y) ==> AllBelow(l, s.ends, s.finals, x, y))
  }

  lemma InitialRises<G(!new), A(!new)>(p: Program<G>, l: Lattice<G, A>, s: State<G>)
    requires MonotoneProgram(p, l) && Initial(p, s)
    ensures Rising(p, l, s.ends, s.finals)
  {
    forall f | f in p.cfgs ensures BelowAt(p, l, s.ends, s.finals, f) {
      assert StartsAt(p, s, f);
    }
    forall x, y | AboveEquations(p, l, x, y) ensures AllBelow(l, s.ends, s.finals, x, y) {
      forall f | f in p.cfgs ensures Below(l, s.ends[f], x[f]) && l.leq(s.finals[f], y[f]) {
        assert StartsAt(p, s, f);
      }
    }
  }

  // ------------------------------------------------------------ a block step

  // Raising the graph of b keeps every block and the summary of f below.
  lemma RaisedStaysBelow<G(!new), A(!new)>(p: Program<G>, l: Lattice<G, A>, f: Func, b: Block, v: G,
                                           ends: map<Func, map<Block, G>>, finals: map<Func, G>)
    requires MonotoneProgram(p, l) && f in p.cfgs && Summaries(p, l, finals)
    requires f in ends && BelowAt(p, l, ends, finals, f) && v == p.transfer(f, b, ends[f], finals)
    ensures BelowAt(p, l, ends[f := ends[f][b := v]], finals, f) && Below(l, ends[f], ends[f][b := v])
  {
    var e, e' := ends[f], ends[f][b := v];
    assert AllGood(l, e') && Below(l, e, e');
    forall x | x in e' ensures l.leq(e'[x], p.transfer(f, x, e', finals)) {
      assert l.leq(p.transfer(f, x, e, finals), p.transfer(f, x, e', finals));
      if x != b {
        assert l.leq(e[x], p.transfer(f, x, e, finals));
      }
    }
    assert l.leq(p.summarize(f, e), p.summarize(f, e'));
  }

  lemma RaisedStaysLeast<G(!new), A(!new)>(p: Program<G>, l: Lattice<G, A>, f: Func, b: Block, v: G,
                                           ends: map<Func, map<Block, G>>, finals: map<Func, G>,
                                           x: map<Func, map<Block, G>>, y: map<Func, G>)
    requires MonotoneProgram(p, l) && f in p.cfgs && b in p.cfgs[f].blocks && Reachable(p.cfgs[f], b)
    requires f in ends && AllGood(l, ends[f]) && Summaries(p, l, finals) && v == p.transfer(f, b, ends[f], finals)
    requires AboveEquations(p, l, x, y) && AllBelow(l, ends, finals, x, y)
    ensures AllBelow(l, ends[f := ends[f][b := v]], finals, x, y)
  {
    assert AboveAt(p, l, x, y, f) && AboveBlock(p, l, x[f], y, f, b);
    assert l.leq(v, p.transfer(f, b, x[f], y));
    assert l.leq(v, x[f][b]);
  }

  lemma BlockStepBelow<G(!new), A(!new)>(p: Program<G>, l: Lattice<G, A>, ends: map<Func, map<Block, G>>, finals: map<Func, G>,
                                         f: Func, b: Block, v: G)
    requires MonotoneProgram(p, l) && Rising(p, l, ends, finals) && f in p.cfgs && v == p.transfer(f, b, ends[f], finals)
    ensures forall g :: g in p.cfgs ==> BelowAt(p, l, ends[f := ends[f][b := v]], finals, g)
  {
    assert BelowAt(p, l, ends, finals, f);
    RaisedStaysBelow(p, l, f, b, v, ends, finals);
    forall g | g in p.cfgs ensures BelowAt(p, l, ends[f := ends[f][b := v]], finals, g) {
      assert BelowAt(p, l, ends, finals, g);
    }
  }

  lemma BlockStepLeast<G(!new), A(!new)>(p: Program<G>, l: Lattice<G, A>, ends: map<Func, map<Block, G>>, finals: map<Func, G>,
                                         f: Func, b: Block, v: G)
    requires MonotoneProgram(p, l) && Rising(p, l, ends, finals) && f in p.cfgs && v == p.transfer(f, b, ends[f], finals)
    requires b in p.cfgs[f].blocks && Reachable(p.cfgs[f], b)
    ensures forall x, y :: AboveEquations(p, l, x, y) ==> AllBelow(l, ends[f := ends[f][b := v]], finals, x, y)
  {
    assert BelowAt(p, l, ends, finals, f);
    forall x, y | AboveEquations(p, l, x, y) ensures AllBelow(l, ends[f := ends[f][b := v]], finals, x, y) {
      RaisedStaysLeast(p, l, f, b, v, ends, finals, x, y);
    }
  }

  lemma BlockStepGains<G(!new), A(!new)>(p: Program<G>, l: Lattice<G, A>, ends: map<Func, map<Block, G>>, finals: map<Func, G>,
                                         f: Func, b: Block, v: G)
    requires MonotoneProgram(p, l) && Rising(p, l, ends, finals) && f in p.cfgs && v == p.transfer(f, b, ends[f], finals)
    requires b in p.cfgs[f].blocks
    ensures var ends' := ends[f := ends[f][b := v]]; Gaps(p, l, ends', finals) < Gaps(p, l, ends, finals) || ends' == ends
  {
    assert BelowAt(p, l, ends, finals, f);
    if b in ends[f] && ends[f][b] == v {
      assert ends[f][b := v] == ends[f];
      assert ends[f := ends[f]] == ends;
    } else {
      BlockGapsShrink(p, l, ends, finals, f, b, v);
    }
  }

  lemma BlockStepRises<G(!new), A(!new)>(p: Program<G>, l: Lattice<G, A>, s: State<G>, s': State<G>, f: Func, b: Block, rest: seq<Block>)
    requires MonotoneProgram(p, l) && Invariant(p, s, {f}) && Shaped(p, s') && f in p.cfgs
    requires Rising(p, l, s.ends, s.finals) && BlockStep(p, s, s', f, b, rest)
    ensures Rising(p, l, s'.ends, s'.finals)
    ensures Gaps(p, l, s'.ends, s'.finals) < Gaps(p, l, s.ends, s.finals) || s'.ends == s.ends
  {
    var v := p.transfer(f, b, s.ends[f], s.finals);
    assert Kept(p, s, {f}, f) && b in s.work[f];
    BlockStepBelow(p, l, s.ends, s.finals, f, b, v);
    BlockStepLeast(p, l, s.ends, s.finals, f, b, v);
    BlockStepGains(p, l, s.ends, s.finals, f, b, v);
  }

  // ------------------------------------------------------------ a new summary

  lemma SummaryRises<G(!new), A(!new)>(p: Program<G>, l: Lattice<G, A>, ends: map<Func, map<Block, G>>, finals: map<Func, G>, f: Func)
    requires MonotoneProgram(p, l) && Rising(p, l, ends, finals) && f in p.cfgs
    ensures var finals' := finals[f := p.summarize(f, ends[f])];
      && Rising(p, l, ends, finals')
      && (Gaps(p, l, ends, finals') < Gaps(p, l, ends, finals) || finals' == finals)
  {
    var v := p.summarize(f, ends[f]);
    var finals' := finals[f := v];
    assert BelowAt(p, l, ends, finals, f);
    assert Summaries(p, l, finals') && Below(l, finals, finals');
    forall g | g in p.cfgs ensures BelowAt(p, l, ends, finals', g) {
      assert BelowAt(p, l, ends, finals, g);
      forall b | b in ends[g] ensures l.leq(ends[g][b], p.transfer(g, b, ends[g], finals')) {
        assert l.leq(p.transfer(g, b, ends[g], finals), p.transfer(g, b, ends[g], finals'));
      }
    }
    forall x, y | AboveEquations(p, l, x, y) ensures AllBelow(l, ends, finals', x, y) {
      SummaryStaysLeast(p, l, ends, finals, f, x, y);
    }
    if finals' != finals {
      SummaryGapsShrink(p, l, ends, finals, f, v);
    }
  }

  lemma SummaryStaysLeast<G(!new), A(!new)>(p: Program<G>, l: Lattice<G, A>, ends: map<Func, map<Block, G>>, finals: map<Func, G>, f: Func,
                                            x: map<Func, map<Block, G>>, y: map<Func, G>)
    requires MonotoneProgram(p, l) && Rising(p, l, ends, finals) && f in p.cfgs
    requires AboveEquations(p, l, x, y) && AllBelow(l, ends, finals, x, y)
    ensures AllBelow(l, ends, finals[f := p.summarize(f, ends[f])], x, y)
  {
    assert AboveAt(p, l, x, y, f) && BelowAt(p, l, ends, finals, f);
    assert l.leq(p.summarize(f, ends[f]), p.summarize(f, x[f]));
    assert l.leq(p.summarize(f, ends[f]), y[f]);
  }

  // ------------------------------------------------------------ what is still to gain

  datatype Gap<A> = BlockGap(func: Func, gap: (Block, Option<A>)) | SummaryGap(func: Func, atom: A)

  ghost function Gaps<G, A>(p: Program<G>, l: Lattice<G, A>, ends: map<Func, map<Block, G>>, finals: map<Func, G>): set<Gap<A>>
    requires ends.Keys == p.cfgs.Keys && finals.Keys == p.cfgs.Keys
  {
    (set f, m | f in p.cfgs && m in Missing(p.cfgs[f], l, ends[f]) :: BlockGap(f, m))
    + (set f, a | f in p.cfgs && a in l.all && a !in l.atoms(finals[f]) :: SummaryGap(f, a))
  }

  lemma BlockGapsShrink<G(!new), A(!new)>(p: Program<G>, l: Lattice<G, A>, ends: map<Func, map<Block, G>>, finals: map<Func, G>,
                                          f: Func, b: Block, v: G)
    requires ends.Keys == p.cfgs.Keys && finals.Keys == p.cfgs.Keys && f in p.cfgs && b in p.cfgs[f].blocks
    requires Laws(l) && AllGood(l, ends[f]) && l.good(v) && (b in ends[f] ==> l.leq(ends[f][b], v) && ends[f][b] != v)
    ensures Gaps(p, l, ends[f := ends[f][b := v]], finals) < Gaps(p, l, ends, finals)
  {
    var m, m' := Missing(p.cfgs[f], l, ends[f]), Missing(p.cfgs[f], l, ends[f][b := v]);
    MissingShrinks(p.cfgs[f], l, ends[f], b, v);
    var x :| x in m && x !in m';
    var s, s' := Gaps(p, l, ends, finals), Gaps(p, l, ends[f := ends[f][b := v]], finals);
    assert BlockGap(f, x) in s && BlockGap(f, x) !in s';
    assert s' <= s;
  }

  lemma SummaryGapsShrink<G(!new), A(!new)>(p: Program<G>, l: Lattice<G, A>, ends: map<Func, map<Block, G>>, finals: map<Func, G>, f: Func, v: G)
    requires ends.Keys == p.cfgs.Keys && finals.Keys == p.cfgs.Keys && f in p.cfgs
    requires Laws(l) && l.good(finals[f]) && l.good(v) && l.leq(finals[f], v) && finals[f] != v
    ensures Gaps(p, l, ends, finals[f := v]) < Gaps(p, l, ends, finals)
  {
    var a :| a in l.atoms(v) && a !in l.atoms(finals[f]);
    var s, s' := Gaps(p, l, ends, finals), Gaps(p, l, ends, finals[f := v]);
    assert SummaryGap(f, a) in s && SummaryGap(f, a) !in s';
    assert s' <= s;
  }

  // ------------------------------------------------------------ the end

  lemma QuietIsLeast<G(!new), A(!new)>(p: Program<G>, l: Lattice<G, A>, s: State<G>)
    requires MonotoneProgram(p, l) && Rising(p, l, s.ends, s.finals)
    requires Invariant(p, s, {}) && s.worklist == []
    ensures LeastSolved(p, l, s)
  {
    QuietIsSolved(p, s);
    forall f | f in p.cfgs ensures AboveAt(p, l, s.ends, s.finals, f) {
      assert SolvedAt(p, s, f) && BelowAt(p, l, s.ends, s.finals, f);
      forall b | b in p.cfgs[f].blocks && Reachable(p.cfgs[f], b) ensures AboveBlock(p, l, s.ends[f], s.finals, f, b) {
        assert Solves(p, s, f, b);
      }
    }
  }

  // Whatever the order in which functions and blocks were processed, the graphs
  // and the summaries are the same.
  lemma LeastSolvedUnique<G(!new), A(!new)>(p: Program<G>, l: Lattice<G, A>, s: State<G>, t: State<G>)
    requires Laws(l) && LeastSolved(p, l, s) && LeastSolved(p, l, t)
    ensures s.ends == t.ends && s.finals == t.finals
  {
    assert AllBelow(l, s.ends, s.finals, t.ends, t.finals) && AllBelow(l, t.ends, t.finals, s.ends, s.finals);
    forall f | f in p.cfgs ensures s.ends[f] == t.ends[f] && s.finals[f] == t.finals[f] {
      assert AboveAt(p, l, s.ends, s.finals, f) && AboveAt(p, l, t.ends, t.finals, f);
      SameBothWays(l, s.ends[f], t.ends[f]);
    }
  }

  lemma SameBothWays<G(!new), A(!new)>(l: Lattice<G, A>, e: map<Block, G>, x: map<Block, G>)
    requires Laws(l) && AllGood(l, e) && AllGood(l, x) && Below(l, e, x) && Below(l, x, e)
    ensures e == x
  {
    forall b | b in e ensures b in x && e[b] == x[b] {
      assert l.leq(e[b], x[b]) && l.leq(x[b], e[b]);
    }
    forall b | b in x ensures b in e {
    }
  }
}
