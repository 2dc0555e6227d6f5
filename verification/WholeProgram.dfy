// The whole-program worklist of escape summaries: functions are summarized
// again and again until every use of a summary is a use of the final one.
module WholeProgram {
  import opened Paths
  import opened MonotoneFramework

  type Func = int

  // An instruction knows its block.
  datatype Instruction = Instruction(block: Block, index: nat)

  // A place where a summary is used.
  datatype Use = Use(user: Func, instruction: Instruction)

  datatype Site = Site(instruction: Instruction, callee: Func)

  // What one function contributes.  transfer gives the graph at the end of a
  // block from the graphs of its predecessors and the summaries of its callees;
  // summarize trims the merged return graphs into a summary.
  datatype Program<!G> = Program(
    cfgs: map<Func, Cfg>,
    sites: map<(Func, Block), seq<Site>>,
    transfer: (Func, Block, map<Block, G>, map<Func, G>) -> G,
    summarize: (Func, map<Block, G>) -> G,
    empty: G)

  function SitesAt<G>(p: Program<G>, f: Func, b: Block): seq<Site> {
    if (f, b) in p.sites then p.sites[(f, b)] else []
  }

  ghost predicate CallsAt<G>(p: Program<G>, f: Func, b: Block, i: Instruction, c: Func) {
    (f, b) in p.sites && Site(i, c) in p.sites[(f, b)]
  }

  ghost predicate SamePreds<G>(c: Cfg, b: Block, e: map<Block, G>, e': map<Block, G>) {
    forall q {:trigger HasPred(c, b, q)} :: HasPred(c, b, q) ==> (q in e <==> q in e') && (q in e ==> e[q] == e'[q])
  }

  ghost predicate SameCallees<G>(p: Program<G>, f: Func, b: Block, s: map<Func, G>, s': map<Func, G>) {
    forall i, c :: CallsAt(p, f, b, i, c) ==> c in s && c in s' && s[c] == s'[c]
  }

  ghost predicate ValidProgram<G(!new)>(p: Program<G>) {
    && (forall f :: f in p.cfgs ==> ValidCfg(p.cfgs[f]))
    && (forall f, b, i, c {:trigger CallsAt(p, f, b, i, c)} :: CallsAt(p, f, b, i, c) ==> i.block == b && c in p.cfgs)
    // a block's graph depends on its predecessors and its callees only
    && (forall f: Func, b: Block, e: map<Block, G>, e': map<Block, G>, s: map<Func, G>, s': map<Func, G>
          {:trigger p.transfer(f, b, e, s), p.transfer(f, b, e', s')} ::
          f in p.cfgs && SamePreds(p.cfgs[f], b, e, e') && SameCallees(p, f, b, s, s')
          ==> p.transfer(f, b, e, s) == p.transfer(f, b, e', s'))
  }

  // ends and work are the blockEnd maps and block worklists of the functions,
  // finals their summaries, uses where each summary was used and what it was.
  datatype State<!G> = State(
    ends: map<Func, map<Block, G>>,
    work: map<Func, seq<Block>>,
    finals: map<Func, G>,
    uses: map<Func, map<Use, G>>,
    worklist: seq<Func>)

  ghost predicate Shaped<G>(p: Program<G>, s: State<G>) {
    && s.ends.Keys == p.cfgs.Keys && s.work.Keys == p.cfgs.Keys
    && s.finals.Keys == p.cfgs.Keys && s.uses.Keys == p.cfgs.Keys
    && (forall f :: f in s.worklist ==> f in p.cfgs)
  }

  // The graph of b is the one its predecessors and callees give now.
  ghost predicate Solves<G>(p: Program<G>, s: State<G>, f: Func, b: Block)
    requires Shaped(p, s) && f in p.cfgs && b in s.ends[f]
  {
    s.ends[f][b] == p.transfer(f, b, s.ends[f], s.finals)
  }

  // The call of c at i in f was last processed with c's summary of now.
  ghost predicate UseCurrent<G>(p: Program<G>, s: State<G>, f: Func, i: Instruction, c: Func)
    requires Shaped(p, s)
  {
    c in p.cfgs && Use(f, i) in s.uses[c] && s.uses[c][Use(f, i)] == s.finals[c]
  }

  // Processed blocks that are not scheduled are up to date.
  ghost predicate UpToDate<G>(p: Program<G>, s: State<G>, f: Func, b: Block)
    requires Shaped(p, s) && f in p.cfgs && b in s.ends[f]
  {
    Solves(p, s, f, b) && forall i, c :: CallsAt(p, f, b, i, c) ==> UseCurrent(p, s, f, i, c)
  }

  // Recorded uses of c's summary are at call sites of processed blocks.
  ghost predicate UsesAreSites<G>(p: Program<G>, s: State<G>, c: Func)
    requires Shaped(p, s) && c in p.cfgs
  {
    forall u :: u in s.uses[c] ==> UseIsSite(p, s, c, u)
  }

  ghost predicate UseIsSite<G>(p: Program<G>, s: State<G>, c: Func, u: Use)
    requires Shaped(p, s)
  {
    && u.user in p.cfgs && u.instruction.block in s.ends[u.user]
    && CallsAt(p, u.user, u.instruction.block, u.instruction, c)
  }

  // What every step keeps about f; the functions of busy are being summarized.
  ghost predicate Kept<G>(p: Program<G>, s: State<G>, busy: set<Func>, f: Func)
    requires Shaped(p, s) && f in p.cfgs && ValidCfg(p.cfgs[f])
  {
    && Tracked(p.cfgs[f], s.ends[f], s.work[f])
    && (s.work[f] != [] && f !in busy ==> f in s.worklist)
    && (forall b :: b in s.ends[f] && b !in s.work[f] ==> UpToDate(p, s, f, b))
    && UsesAreSites(p, s, f)
    && (f !in s.worklist && f !in busy ==> s.finals[f] == p.summarize(f, s.ends[f]))
  }

  ghost predicate Invariant<G(!new)>(p: Program<G>, s: State<G>, busy: set<Func>) {
    ValidProgram(p) && Shaped(p, s) && forall f :: f in p.cfgs ==> Kept(p, s, busy, f)
  }

  // f's summary, the graphs of exactly its reachable blocks and the uses of
  // its summary are all what the equations say.
  ghost predicate SolvedAt<G>(p: Program<G>, s: State<G>, f: Func)
    requires Shaped(p, s) && f in p.cfgs
  {
    && s.finals[f] == p.summarize(f, s.ends[f])
    && (forall b :: b in s.ends[f] <==> b in p.cfgs[f].blocks && Reachable(p.cfgs[f], b))
    && (forall b :: b in s.ends[f] ==> UpToDate(p, s, f, b))
    && (forall u :: u in s.uses[f] ==> s.uses[f][u] == s.finals[f])
  }

  ghost predicate Solved<G>(p: Program<G>, s: State<G>) {
    Shaped(p, s) && forall f :: f in p.cfgs ==> SolvedAt(p, s, f)
  }

  lemma QuietIsSolved<G(!new)>(p: Program<G>, s: State<G>)
    requires Invariant(p, s, {}) && s.worklist == []
    ensures Solved(p, s)
  {
    forall f | f in p.cfgs ensures SolvedAt(p, s, f) {
      QuietBlocks(p, s, f);
      forall u | u in s.uses[f] ensures s.uses[f][u] == s.finals[f] {
        assert UseIsSite(p, s, f, u);
        QuietBlocks(p, s, u.user);
        QuietUse(p, s, f, u);
      }
    }
  }

  lemma QuietBlocks<G(!new)>(p: Program<G>, s: State<G>, f: Func)
    requires Invariant(p, s, {}) && s.worklist == [] && f in p.cfgs
    ensures s.finals[f] == p.summarize(f, s.ends[f]) && UsesAreSites(p, s, f)
    ensures forall b :: b in s.ends[f] <==> b in p.cfgs[f].blocks && Reachable(p.cfgs[f], b)
    ensures forall b :: b in s.ends[f] ==> UpToDate(p, s, f, b)
  {
    assert Kept(p, s, {}, f);
    TrackedDone(p.cfgs[f], s.ends[f]);
  }

  lemma QuietUse<G>(p: Program<G>, s: State<G>, f: Func, u: Use)
    requires Shaped(p, s) && f in p.cfgs && UseIsSite(p, s, f, u)
    requires forall b :: b in s.ends[u.user] ==> UpToDate(p, s, u.user, b)
    ensures u in s.uses[f] ==> s.uses[f][u] == s.finals[f]
  {
    assert UpToDate(p, s, u.user, u.instruction.block);
    assert UseCurrent(p, s, u.user, u.instruction, f);
  }

  // ------------------------------------------------------------ processing a block

  // Every call site in sites of f records the callee's summary of now.
  function Recorded<G>(uses: map<Func, map<Use, G>>, finals: map<Func, G>, f: Func, sites: seq<Site>): map<Func, map<Use, G>> {
    if sites == [] then uses
    else
      var rest, last := Recorded(uses, finals, f, sites[..|sites| - 1]), sites[|sites| - 1];
      if last.callee in rest && last.callee in finals then
        rest[last.callee := rest[last.callee][Use(f, last.instruction) := finals[last.callee]]]
      else rest
  }

  // What Recorded does to the uses of one summary.
  ghost predicate RecordedAt<G>(old0: map<Use, G>, new0: map<Use, G>, final: G, f: Func, sites: seq<Site>, c: Func) {
    && (forall u :: u in old0 ==> u in new0)
    && (forall u :: u in new0 ==>
          (u in old0 && new0[u] == old0[u]) || (u.user == f && Site(u.instruction, c) in sites && new0[u] == final))
    && (forall i :: Site(i, c) in sites ==> Use(f, i) in new0 && new0[Use(f, i)] == final)
  }

  lemma {:induction false} RecordedShape<G>(uses: map<Func, map<Use, G>>, finals: map<Func, G>, f: Func, sites: seq<Site>)
    requires uses.Keys == finals.Keys
    ensures Recorded(uses, finals, f, sites).Keys == uses.Keys
    ensures forall c :: c in uses ==> RecordedAt(uses[c], Recorded(uses, finals, f, sites)[c], finals[c], f, sites, c)
  {
    if sites != [] {
      var rest, last := sites[..|sites| - 1], sites[|sites| - 1];
      assert sites == rest + [last];
      RecordedShape(uses, finals, f, rest);
    }
  }

  // Block b of f is taken off f's worklist, its uses are recorded, its graph is
  // recomputed, and its successors are scheduled if the graph is new.
  ghost predicate BlockStep<G>(p: Program<G>, s: State<G>, s': State<G>, f: Func, b: Block, rest: seq<Block>)
    requires Shaped(p, s) && Shaped(p, s') && f in p.cfgs
  {
    && s.work[f] == [b] + rest
    && s'.ends == s.ends[f := s.ends[f][b := p.transfer(f, b, s.ends[f], s.finals)]]
    && s'.finals == s.finals && s'.worklist == s.worklist
    && s'.uses == Recorded(s.uses, s.finals, f, SitesAt(p, f, b))
    && (forall g :: g in p.cfgs && g != f ==> s'.work[g] == s.work[g])
    && (forall x :: x in s'.work[f] <==> x in rest || (s'.ends[f] != s.ends[f] && HasSucc(p.cfgs[f], b, x)))
    && (s'.ends[f] == s.ends[f] ==> s'.work[f] == rest)
  }

  lemma UsesStaySites<G(!new)>(p: Program<G>, s: State<G>, s': State<G>, f: Func, b: Block, rest: seq<Block>, c: Func)
    requires ValidProgram(p) && Shaped(p, s) && Shaped(p, s') && f in p.cfgs && c in p.cfgs
    requires BlockStep(p, s, s', f, b, rest) && UsesAreSites(p, s, c)
    ensures UsesAreSites(p, s', c)
  {
    RecordedShape(s.uses, s.finals, f, SitesAt(p, f, b));
    forall u | u in s'.uses[c] ensures UseIsSite(p, s', c, u) {
      UseStaysSite(p, s, s', f, b, c, u);
    }
  }

  lemma UseStaysSite<G(!new)>(p: Program<G>, s: State<G>, s': State<G>, f: Func, b: Block, c: Func, u: Use)
    requires ValidProgram(p) && Shaped(p, s) && Shaped(p, s') && f in p.cfgs && c in p.cfgs
    requires u in s.uses[c] ==> UseIsSite(p, s, c, u)
    requires u in s.uses[c] || (u.user == f && Site(u.instruction, c) in SitesAt(p, f, b))
    requires b in s'.ends[f] && forall g, x :: g in p.cfgs && x in s.ends[g] ==> x in s'.ends[g]
    ensures UseIsSite(p, s', c, u)
  {
    if u !in s.uses[c] {
      assert CallsAt(p, f, b, u.instruction, c);
    }
  }

  lemma UseStaysCurrent<G(!new)>(p: Program<G>, s: State<G>, s': State<G>, f: Func, b: Block, rest: seq<Block>,
                                 g: Func, x: Block, i: Instruction, c: Func)
    requires ValidProgram(p) && Shaped(p, s) && Shaped(p, s') && f in p.cfgs && g in p.cfgs
    requires BlockStep(p, s, s', f, b, rest) && CallsAt(p, g, x, i, c)
    requires (g == f && x == b) || UseCurrent(p, s, g, i, c)
    ensures UseCurrent(p, s', g, i, c)
  {
    RecordedShape(s.uses, s.finals, f, SitesAt(p, f, b));
  }

  // Blocks of f that are not scheduled after the step solve their equation.
  lemma BlocksStaySolved<G(!new)>(p: Program<G>, s: State<G>, s': State<G>, f: Func, b: Block, rest: seq<Block>, x: Block)
    requires ValidProgram(p) && Shaped(p, s) && Shaped(p, s') && f in p.cfgs
    requires BlockStep(p, s, s', f, b, rest)
    requires x in s'.ends[f] && x !in s'.work[f]
    requires x == b || Solves(p, s, f, x)
    ensures Solves(p, s', f, x)
  {
    var c := p.cfgs[f];
    var e, e' := s.ends[f], s'.ends[f];
    if e' != e {
      assert !HasSucc(c, b, x);
      assert !HasPred(c, x, b);
      assert SamePreds(c, x, e, e');
      assert SameCallees(p, f, x, s.finals, s.finals) by {
        forall i, d | CallsAt(p, f, x, i, d) ensures d in s.finals {}
      }
      assert p.transfer(f, x, e, s.finals) == p.transfer(f, x, e', s.finals);
    }
  }

  lemma BlockStepKeeps<G(!new)>(p: Program<G>, s: State<G>, s': State<G>, f: Func, b: Block, rest: seq<Block>)
    requires Invariant(p, s, {f}) && Shaped(p, s') && f in p.cfgs
    requires BlockStep(p, s, s', f, b, rest)
    ensures Invariant(p, s', {f})
  {
    assert Kept(p, s, {f}, f);
    var c := p.cfgs[f];
    assert b in s.work[f];
    TrackedSteps(c, s.ends[f], s'.ends[f], b, s'.ends[f][b], rest, s'.work[f]);
    forall g | g in p.cfgs ensures Kept(p, s', {f}, g) {
      assert Kept(p, s, {f}, g);
      UsesStaySites(p, s, s', f, b, rest, g);
      forall x | x in s'.ends[g] && x !in s'.work[g] ensures UpToDate(p, s', g, x) {
        assert (g == f && x == b) || (x in s.ends[g] && x !in s.work[g]) by {
          if g == f && x != b {
            assert x in s.work[f] ==> x in rest;
          }
        }
        if g == f {
          BlocksStaySolved(p, s, s', f, b, rest, x);
        }
        forall i, d | CallsAt(p, g, x, i, d) ensures UseCurrent(p, s', g, i, d) {
          UseStaysCurrent(p, s, s', f, b, rest, g, x, i, d);
        }
      }
    }
  }

  // ------------------------------------------------------------ a new summary

  // f has no block left to process.  Its summary is replaced; where an older one
  // was used, the block is scheduled again, and with it its function.
  ghost predicate SummaryStep<G>(p: Program<G>, s: State<G>, s': State<G>, f: Func)
    requires Shaped(p, s) && Shaped(p, s') && f in p.cfgs
  {
    && s.work[f] == []
    && s'.ends == s.ends && s'.uses == s.uses
    && s'.finals == s.finals[f := p.summarize(f, s.ends[f])]
    && (forall g, x :: g in p.cfgs ==> (x in s'.work[g] <==> x in s.work[g] || Stale(p, s, s'.finals[f], f, g, x)))
    && (forall g :: g in s'.worklist <==> g in s.worklist || exists x :: Stale(p, s, s'.finals[f], f, g, x))
  }

  // Block x of g has used a summary of f that is not its new one.
  ghost predicate Stale<G>(p: Program<G>, s: State<G>, final: G, f: Func, g: Func, x: Block)
    requires Shaped(p, s) && f in p.cfgs
  {
    StaleAmong(s.uses[f], s.uses[f].Keys, final, g, x)
  }

  ghost predicate StaleAmong<G>(used: map<Use, G>, among: set<Use>, final: G, g: Func, x: Block) {
    exists u :: u in among && u in used && used[u] != final && u.user == g && u.instruction.block == x
  }

  // A block of g that is not scheduled now has used f's new summary, if any.
  lemma BlockStaysUpToDate<G(!new)>(p: Program<G>, s: State<G>, s': State<G>, f: Func, g: Func, x: Block)
    requires ValidProgram(p) && Shaped(p, s) && Shaped(p, s') && f in p.cfgs && g in p.cfgs
    requires SummaryStep(p, s, s', f)
    requires x in s.ends[g] && x !in s'.work[g] && UpToDate(p, s, g, x)
    ensures UpToDate(p, s', g, x)
  {
    forall i, c | CallsAt(p, g, x, i, c)
      ensures c in s.finals && s.finals[c] == s'.finals[c] && UseCurrent(p, s', g, i, c)
    {
      assert UseCurrent(p, s, g, i, c);
    }
    assert SameCallees(p, g, x, s.finals, s'.finals);
    assert SamePreds(p.cfgs[g], x, s.ends[g], s.ends[g]);
    assert p.transfer(g, x, s.ends[g], s.finals) == p.transfer(g, x, s.ends[g], s'.finals);
  }

  lemma SummaryStepKeeps<G(!new)>(p: Program<G>, s: State<G>, s': State<G>, f: Func)
    requires Invariant(p, s, {f}) && Shaped(p, s') && f in p.cfgs
    requires SummaryStep(p, s, s', f)
    ensures Invariant(p, s', {})
  {
    forall g | g in p.cfgs ensures Kept(p, s', {}, g) {
      assert Kept(p, s, {f}, g);
      forall x | x in s'.work[g] ensures x in p.cfgs[g].blocks && Reachable(p.cfgs[g], x) {
        if x !in s.work[g] {
          var u :| u in s.uses[f] && s.uses[f][u] != s'.finals[f] && u.user == g && u.instruction.block == x;
          assert Kept(p, s, {f}, f);
          assert UseIsSite(p, s, f, u);
        }
      }
      assert Tracked(p.cfgs[g], s'.ends[g], s'.work[g]);
      forall x | x in s'.ends[g] && x !in s'.work[g] ensures UpToDate(p, s', g, x) {
        BlockStaysUpToDate(p, s, s', f, g, x);
      }
      if s'.work[g] != [] {
        var x := s'.work[g][0];
        assert x in s'.work[g];
        if x in s.work[g] {
          assert s.work[g] != [];
        }
      }
    }
  }

  ghost predicate StartsAt<G>(p: Program<G>, s: State<G>, f: Func)
    requires Shaped(p, s) && f in p.cfgs
  {
    && s.ends[f] == map[] && s.work[f] == StartWork(p.cfgs[f])
    && s.uses[f] == map[] && s.finals[f] == p.empty && f in s.worklist
  }

  // Before anything has been processed.
  ghost predicate Initial<G>(p: Program<G>, s: State<G>) {
    && Shaped(p, s)
    && (forall f :: f in p.cfgs ==> StartsAt(p, s, f))
  }

  lemma InitialKeeps<G(!new)>(p: Program<G>, s: State<G>)
    requires ValidProgram(p) && Initial(p, s)
    ensures Invariant(p, s, {})
  {
    forall f | f in p.cfgs ensures Kept(p, s, {}, f) {
      StartIsKept(p, s, f);
    }
  }

  lemma StartIsKept<G>(p: Program<G>, s: State<G>, f: Func)
    requires Shaped(p, s) && f in p.cfgs && ValidCfg(p.cfgs[f]) && StartsAt(p, s, f)
    ensures Kept(p, s, {}, f)
  {
    var c := p.cfgs[f];
    ReachRefl(Steps(c), c.entry);
    assert Tracked<G>(c, map[], StartWork(c));
  }

  // ------------------------------------------------------------ taking a function, an unchanged summary

  lemma PopKeeps<G(!new)>(p: Program<G>, s: State<G>, f: Func)
    requires Invariant(p, s, {}) && s.worklist != [] && s.worklist[|s.worklist| - 1] == f
    ensures Invariant(p, s.(worklist := s.worklist[..|s.worklist| - 1]), {f}) && f in p.cfgs
  {
    var s' := s.(worklist := s.worklist[..|s.worklist| - 1]);
    assert s.worklist == s'.worklist + [f];
    assert f in s.worklist;
    forall g | g in p.cfgs ensures Kept(p, s', {f}, g) {
      assert Kept(p, s, {}, g);
      forall b | b in s'.ends[g] && b !in s'.work[g] ensures UpToDate(p, s', g, b) {
        assert UpToDate(p, s, g, b);
        forall i, c | CallsAt(p, g, b, i, c) ensures UseCurrent(p, s', g, i, c) {
          assert UseCurrent(p, s, g, i, c);
        }
      }
      forall u | u in s'.uses[g] ensures UseIsSite(p, s', g, u) {
        assert UseIsSite(p, s, g, u);
      }
    }
  }

  // f's summary is already the one of its blocks.
  lemma UnchangedKeeps<G(!new)>(p: Program<G>, s: State<G>, f: Func)
    requires Invariant(p, s, {f}) && f in p.cfgs && s.work[f] == [] && s.finals[f] == p.summarize(f, s.ends[f])
    ensures Invariant(p, s, {})
  {
    forall g | g in p.cfgs ensures Kept(p, s, {}, g) {
      assert Kept(p, s, {f}, g);
    }
  }
}
