// The worklist of functions and the block worklists behind it, as a loop that
// summarizes functions until no use of a summary is out of date.
module ProgramWorklist {
  import opened MonotoneFramework
  import opened WholeProgram
  import opened ProgramFixpoint

  // The first block of f's worklist is recomputed, the uses in it are recorded,
  // and its successors are scheduled if its graph is new.
  method ProcessBlock<G(==, !new)>(p: Program<G>, s: State<G>, f: Func) returns (s': State<G>)
    requires Invariant(p, s, {f}) && f in p.cfgs && s.work[f] != []
    ensures Invariant(p, s', {f}) && BlockStep(p, s, s', f, s.work[f][0], s.work[f][1..])
    ensures s'.ends == s.ends ==> s'.work[f] == s.work[f][1..]
  {
    var b, rest := s.work[f][0], s.work[f][1..];
    FirstBlock(p, s, f, b);
    var uses := RecordUses(s.uses, s.finals, f, SitesAt(p, f, b));
    var v := p.transfer(f, b, s.ends[f], s.finals);
    var list := rest;
    var changed := !(b in s.ends[f] && s.ends[f][b] == v);
    if changed {
      list := AddAll(list, p.cfgs[f].succs[b]);
    }
    s' := State(s.ends[f := s.ends[f][b := v]], s.work[f := list], s.finals, uses, s.worklist);
    BlockStepShaped(p, s, s', f, b);
    BlockStepMade(p, s, s', f, b, rest, list, changed);
    BlockStepKeeps(p, s, s', f, b, rest);
  }

  lemma FirstBlock<G(!new)>(p: Program<G>, s: State<G>, f: Func, b: Block)
    requires Invariant(p, s, {f}) && f in p.cfgs && s.work[f] != [] && b == s.work[f][0]
    ensures b in p.cfgs[f].blocks && b in p.cfgs[f].succs
    ensures forall i :: 0 <= i < |SitesAt(p, f, b)| ==> SitesAt(p, f, b)[i].callee in s.finals
  {
    assert Kept(p, s, {f}, f) && b in s.work[f];
    var sites := SitesAt(p, f, b);
    assert forall i :: 0 <= i < |sites| ==> CallsAt(p, f, b, sites[i].instruction, sites[i].callee);
  }

  lemma UpdateIsChange<K, V>(m: map<K, V>, k: K, v: V)
    ensures m[k := v] == m <==> k in m && m[k] == v
  {
  }

  // Each call site of f stores the summary of its callee.
  method RecordUses<G>(uses0: map<Func, map<Use, G>>, finals: map<Func, G>, f: Func, sites: seq<Site>)
    returns (uses: map<Func, map<Use, G>>)
    requires uses0.Keys == finals.Keys && forall i :: 0 <= i < |sites| ==> sites[i].callee in finals
    ensures uses == Recorded(uses0, finals, f, sites)
  {
    uses := uses0;
    for i := 0 to |sites|
      invariant uses.Keys == finals.Keys
      invariant uses == Recorded(uses0, finals, f, sites[..i])
    {
      var c := sites[i].callee;
      uses := uses[c := uses[c][Use(f, sites[i].instruction) := finals[c]]];
      assert sites[..i + 1][..i] == sites[..i];
    }
    assert sites[..|sites|] == sites;
  }

  method AddToWorklist(list0: seq<int>, x: int) returns (list: seq<int>)
    ensures list == if x in list0 then list0 else list0 + [x]
    ensures forall y :: y in list <==> y in list0 || y == x
  {
    list := list0;
    var found := false;
    for i := 0 to |list|
      invariant found <==> x in list[..i]
    {
      if list[i] == x {
        found := true;
      }
    }
    if !found {
      list := list + [x];
    }
  }

  method AddAll(list0: seq<int>, xs: seq<int>) returns (list: seq<int>)
    ensures forall y :: y in list <==> y in list0 || y in xs
  {
    list := list0;
    for i := 0 to |xs|
      invariant forall y :: y in list <==> y in list0 || y in xs[..i]
    {
      list := AddToWorklist(list, xs[i]);
    }
  }

  // f is put into the list before the functions of its component at the end.
  ghost predicate InsertedAt(list0: seq<Func>, list: seq<Func>, f: Func, sccOfFunc: map<Func, int>, i: nat) {
    && i <= |list0| && list == list0[..i] + [f] + list0[i..]
    && forall k :: i <= k < |list0| ==> SameComponent(sccOfFunc, list0[k], f)
  }

  // A function without an entry reads as the zero value.
  ghost predicate SameComponent(sccOfFunc: map<Func, int>, f: Func, g: Func) {
    (f in sccOfFunc ==> if g in sccOfFunc then sccOfFunc[f] == sccOfFunc[g] else sccOfFunc[f] == 0)
    && (f !in sccOfFunc && g in sccOfFunc ==> sccOfFunc[g] == 0)
  }

  // Puts a function on the worklist, if it is not there.  The list is taken from
  // its end, so the functions of the same component that wait there come first.
  method ScheduleFunction(list0: seq<Func>, f: Func, sccOfFunc: map<Func, int>) returns (list: seq<Func>)
    ensures f in list0 ==> list == list0
    ensures f !in list0 ==> exists i: nat :: InsertedAt(list0, list, f, sccOfFunc, i)
                                            && (i > 0 ==> !SameComponent(sccOfFunc, list0[i - 1], f))
    ensures forall g :: g in list <==> g in list0 || g == f
  {
    list := list0;
    if f in list {
      return;
    }
    list := list + [f];
    var i := |list| - 1;
    while i > 0 && Component(sccOfFunc, list[i]) == Component(sccOfFunc, list[i - 1])
      invariant 0 <= i < |list| && InsertedAt(list0, list, f, sccOfFunc, i)
      decreases i
    {
      InsertedEarlier(list0, list, f, sccOfFunc, i);
      list := list[i := list[i - 1]][i - 1 := list[i]];
      i := i - 1;
    }
    InsertedKeeps(list0, list, f, sccOfFunc, i);
  }

  lemma InsertedEarlier(list0: seq<Func>, list: seq<Func>, f: Func, sccOfFunc: map<Func, int>, i: nat)
    requires 0 < i < |list| && InsertedAt(list0, list, f, sccOfFunc, i)
    requires Component(sccOfFunc, list[i]) == Component(sccOfFunc, list[i - 1])
    ensures InsertedAt(list0, list[i := list[i - 1]][i - 1 := list[i]], f, sccOfFunc, i - 1)
  {
    var swapped := list[i := list[i - 1]][i - 1 := list[i]];
    var want := list0[..i - 1] + [f] + list0[i - 1..];
    assert list[i] == f && list[i - 1] == list0[i - 1];
    forall k | 0 <= k < |want| ensures swapped[k] == want[k] {
    }
    assert swapped == want;
  }

  lemma InsertedKeeps(list0: seq<Func>, list: seq<Func>, f: Func, sccOfFunc: map<Func, int>, i: nat)
    requires InsertedAt(list0, list, f, sccOfFunc, i)
    ensures forall g :: g in list <==> g in list0 || g == f
    ensures i < |list| && list[i] == f && (i > 0 ==> list[i - 1] == list0[i - 1])
  {
    assert list0 == list0[..i] + list0[i..];
  }

  function Component(sccOfFunc: map<Func, int>, f: Func): int {
    if f in sccOfFunc then sccOfFunc[f] else 0
  }

  // The blocks and functions that the uses of among add to the worklists.
  ghost predicate Scheduled<G>(used: map<Use, G>, among: set<Use>, final: G, work: map<Func, seq<Block>>,
                               work': map<Func, seq<Block>>, worklist: seq<Func>, worklist': seq<Func>)
  {
    && work'.Keys == work.Keys
    && (forall g, x :: g in work ==> (x in work'[g] <==> x in work[g] || StaleAmong(used, among, final, g, x)))
    && (forall g :: g in worklist' <==> g in worklist || exists x :: StaleAmong(used, among, final, g, x))
  }

  // The loop over the recorded uses of one summary.
  method Reschedule<G(==)>(used: map<Use, G>, final: G, work0: map<Func, seq<Block>>, worklist0: seq<Func>,
                           sccOfFunc: map<Func, int>)
    returns (work: map<Func, seq<Block>>, worklist: seq<Func>)
    requires forall u :: u in used ==> u.user in work0
    ensures Scheduled(used, used.Keys, final, work0, work, worklist0, worklist)
  {
    work, worklist := work0, worklist0;
    var locations := used.Keys;
    ghost var done: set<Use> := {};
    while locations != {}
      invariant locations + done == used.Keys
      invariant Scheduled(used, done, final, work0, work, worklist0, worklist)
      decreases locations
    {
      var location :| location in locations;
      locations := locations - {location};
      ghost var work1, worklist1 := work, worklist;
      if final != used[location] {
        var list := AddToWorklist(work[location.user], location.instruction.block);
        work := work[location.user := list];
        worklist := ScheduleFunction(worklist, location.user, sccOfFunc);
      }
      ScheduledGrows(used, done, final, work0, work1, work, worklist0, worklist1, worklist, location);
      done := done + {location};
    }
    assert done == used.Keys;
  }

  lemma ScheduledGrows<G>(used: map<Use, G>, among: set<Use>, final: G, work0: map<Func, seq<Block>>,
                          work: map<Func, seq<Block>>, work': map<Func, seq<Block>>,
                          list0: seq<Func>, list: seq<Func>, list': seq<Func>, u: Use)
    requires Scheduled(used, among, final, work0, work, list0, list) && u in used && u.user in work0
    requires used[u] == final ==> work' == work && list' == list
    requires used[u] != final ==>
      work'.Keys == work.Keys && (forall g :: g in work && g != u.user ==> work'[g] == work[g])
      && (forall x :: x in work'[u.user] <==> x in work[u.user] || x == u.instruction.block)
      && (forall g :: g in list' <==> g in list || g == u.user)
    ensures Scheduled(used, among + {u}, final, work0, work', list0, list')
  {
    StaleGrows(used, among, final, u);
    if used[u] != final {
      assert StaleAmong(used, among + {u}, final, u.user, u.instruction.block);
    }
  }

  lemma BlockStepShaped<G(!new)>(p: Program<G>, s: State<G>, s': State<G>, f: Func, b: Block)
    requires Shaped(p, s) && f in p.cfgs
    requires s'.ends.Keys == s.ends.Keys && s'.work.Keys == s.work.Keys
    requires s'.finals == s.finals && s'.worklist == s.worklist
    requires s'.uses == Recorded(s.uses, s.finals, f, SitesAt(p, f, b))
    ensures Shaped(p, s')
  {
    RecordedShape(s.uses, s.finals, f, SitesAt(p, f, b));
  }

  // What ProcessBlock computes is a block step.
  lemma BlockStepMade<G(!new)>(p: Program<G>, s: State<G>, s': State<G>, f: Func, b: Block, rest: seq<Block>, list: seq<Block>, changed: bool)
    requires Shaped(p, s) && Shaped(p, s') && f in p.cfgs && s.work[f] == [b] + rest
    requires s'.ends == s.ends[f := s.ends[f][b := p.transfer(f, b, s.ends[f], s.finals)]]
    requires s'.finals == s.finals && s'.worklist == s.worklist
    requires s'.uses == Recorded(s.uses, s.finals, f, SitesAt(p, f, b))
    requires s'.work == s.work[f := list]
    requires changed <==> !(b in s.ends[f] && s.ends[f][b] == p.transfer(f, b, s.ends[f], s.finals))
    requires forall x :: x in list <==> x in rest || (changed && HasSucc(p.cfgs[f], b, x))
    requires !changed ==> list == rest
    ensures BlockStep(p, s, s', f, b, rest)
  {
    UpdateIsChange(s.ends[f], b, p.transfer(f, b, s.ends[f], s.finals));
  }

  lemma StaleGrows<G>(used: map<Use, G>, among: set<Use>, final: G, u: Use)
    requires u in used
    ensures forall g, x :: StaleAmong(used, among + {u}, final, g, x) <==>
      StaleAmong(used, among, final, g, x) || (used[u] != final && u.user == g && u.instruction.block == x)
  {
  }

  // ------------------------------------------------------------ summarizing one function

  // Since s, only the blocks of f have been worked on, and its uses of summaries.
  ghost predicate OthersStay<G>(p: Program<G>, s: State<G>, s': State<G>, f: Func) {
    && Shaped(p, s) && Shaped(p, s')
    && s'.finals == s.finals && s'.worklist == s.worklist
    && (forall g :: g in p.cfgs && g != f ==> s'.ends[g] == s.ends[g] && s'.work[g] == s.work[g])
    && (forall c :: c in p.cfgs ==> OtherUsesStay(s.uses[c], s'.uses[c], f))
  }

  ghost predicate OtherUsesStay<G>(u: map<Use, G>, u': map<Use, G>, f: Func) {
    forall x: Use :: x.user != f ==> (x in u' <==> x in u) && (x in u ==> u'[x] == u[x])
  }

  lemma OthersStayStep<G(!new)>(p: Program<G>, s0: State<G>, s: State<G>, s': State<G>, f: Func, b: Block, rest: seq<Block>)
    requires f in p.cfgs && Shaped(p, s') && OthersStay(p, s0, s, f) && BlockStep(p, s, s', f, b, rest)
    ensures OthersStay(p, s0, s', f)
  {
    forall c | c in p.cfgs ensures OtherUsesStay(s0.uses[c], s'.uses[c], f) {
      RecordedUsesStay(s0.uses[c], s.uses, s.finals, f, SitesAt(p, f, b), c);
    }
  }

  lemma RecordedUsesStay<G>(uses0: map<Use, G>, uses: map<Func, map<Use, G>>, finals: map<Func, G>, f: Func, sites: seq<Site>, c: Func)
    requires uses.Keys == finals.Keys && c in uses && OtherUsesStay(uses0, uses[c], f)
    ensures c in Recorded(uses, finals, f, sites) && OtherUsesStay(uses0, Recorded(uses, finals, f, sites)[c], f)
  {
    RecordedShape(uses, finals, f, sites);
    RecordedOthers(uses0, uses[c], Recorded(uses, finals, f, sites)[c], finals[c], f, sites, c);
  }

  lemma RecordedOthers<G>(uses0: map<Use, G>, uses: map<Use, G>, uses': map<Use, G>, final: G, f: Func, sites: seq<Site>, c: Func)
    requires OtherUsesStay(uses0, uses, f) && RecordedAt(uses, uses', final, f, sites, c)
    ensures OtherUsesStay(uses0, uses', f)
  {
  }

  // From s to s' f has been summarized: its blocks were worked on until none was
  // left, and its summary is the one of its blocks now.
  ghost predicate Resummarized<G(!new)>(p: Program<G>, s: State<G>, s': State<G>, f: Func) {
    var done := s'.(finals := s.finals);
    && f in p.cfgs && Invariant(p, done, {f}) && OthersStay(p, s, done, f) && done.work[f] == []
    && s'.finals == s.finals[f := p.summarize(f, s'.ends[f])]
  }

  lemma ResummarizedSites<G(!new)>(p: Program<G>, s: State<G>, s': State<G>, f: Func)
    requires Resummarized(p, s, s', f)
    ensures Shaped(p, s') && forall u :: u in s'.uses[f] ==> u.user in s'.work
  {
    var done := s'.(finals := s.finals);
    assert Kept(p, done, {f}, f);
    forall u | u in s'.uses[f] ensures u.user in s'.work {
      assert UseIsSite(p, done, f, u);
    }
  }

  lemma RescheduledShaped<G(!new)>(p: Program<G>, s: State<G>, s': State<G>, s'': State<G>, f: Func)
    requires Resummarized(p, s, s', f) && Shaped(p, s')
    requires s''.ends == s'.ends && s''.finals == s'.finals && s''.uses == s'.uses
    requires Scheduled(s'.uses[f], s'.uses[f].Keys, s'.finals[f], s'.work, s''.work, s'.worklist, s''.worklist)
    ensures Shaped(p, s'')
  {
    var done := s'.(finals := s.finals);
    assert Kept(p, done, {f}, f);
    forall g | g in s''.worklist ensures g in p.cfgs {
      if g !in s'.worklist {
        var x :| StaleAmong(s'.uses[f], s'.uses[f].Keys, s'.finals[f], g, x);
        var u :| u in s'.uses[f] && u.user == g;
        assert UseIsSite(p, done, f, u);
      }
    }
  }

  // With its users scheduled, f's new summary is a step of the whole analysis.
  lemma RescheduledKeeps<G(!new)>(p: Program<G>, s: State<G>, s': State<G>, s'': State<G>, f: Func)
    requires Resummarized(p, s, s', f) && Shaped(p, s')
    requires s''.ends == s'.ends && s''.finals == s'.finals && s''.uses == s'.uses
    requires Scheduled(s'.uses[f], s'.uses[f].Keys, s'.finals[f], s'.work, s''.work, s'.worklist, s''.worklist)
    ensures Shaped(p, s'') && SummaryStep(p, s'.(finals := s.finals), s'', f) && Invariant(p, s'', {})
  {
    var done := s'.(finals := s.finals);
    RescheduledShaped(p, s, s', s'', f);
    assert forall g, x :: Stale(p, done, s''.finals[f], f, g, x) <==> StaleAmong(s'.uses[f], s'.uses[f].Keys, s'.finals[f], g, x);
    SummaryStepKeeps(p, done, s'', f);
  }

  lemma UnchangedIsDone<G(!new)>(p: Program<G>, s: State<G>, s': State<G>, f: Func)
    requires Resummarized(p, s, s', f) && s'.finals[f] == s.finals[f]
    ensures Invariant(p, s', {})
  {
    assert s'.finals == s.finals;
    assert s'.(finals := s.finals) == s';
    UnchangedKeeps(p, s', f);
  }

  // Schedules every block that used a summary of f other than its new one.
  method RescheduleUses<G(==, !new)>(p: Program<G>, ghost s0: State<G>, s: State<G>, f: Func, sccOfFunc: map<Func, int>)
    returns (s': State<G>)
    requires Resummarized(p, s0, s, f)
    ensures Invariant(p, s', {}) && SummaryStep(p, s.(finals := s0.finals), s', f)
  {
    ResummarizedSites(p, s0, s, f);
    var work, worklist := Reschedule(s.uses[f], s.finals[f], s.work, s.worklist, sccOfFunc);
    s' := s.(work := work, worklist := worklist);
    RescheduledKeeps(p, s0, s, s', f);
  }

  // ------------------------------------------------------------ the loops

  // Only gains since ends0 and finals0.
  ghost predicate Climbs<G(!new), A(!new)>(p: Program<G>, l: Lattice<G, A>, s0: State<G>, s: State<G>) {
    && Shaped(p, s0) && Shaped(p, s) && MonotoneProgram(p, l) && Rising(p, l, s.ends, s.finals)
    && Gaps(p, l, s.ends, s.finals) <= Gaps(p, l, s0.ends, s0.finals)
  }

  // Every function waits, with its first block if it has any; nothing has been
  // computed.
  function StartState<G>(p: Program<G>, order: seq<Func>): State<G> {
    State(map f | f in p.cfgs :: map[],
          map f | f in p.cfgs :: StartWork(p.cfgs[f]),
          map f | f in p.cfgs :: p.empty,
          map f | f in p.cfgs :: map[],
          order)
  }

  lemma StartStateIsInitial<G>(p: Program<G>, order: seq<Func>)
    requires forall f :: f in order <==> f in p.cfgs
    ensures Initial(p, StartState(p, order))
  {
    forall f | f in p.cfgs ensures StartsAt(p, StartState(p, order), f) {
    }
  }

  // The graphs are values here; a graph that is stored is never changed.
  class ProgramState<G(==, !new)> {
    const p: Program<G>
    const sccOfFunc: map<Func, int>
    var state: State<G>

    // order lists the functions, components in reverse topological order.
    constructor (p: Program<G>, order: seq<Func>, sccOfFunc: map<Func, int>)
      requires ValidProgram(p) && forall f :: f in order <==> f in p.cfgs
      ensures this.p == p && Initial(p, state) && state.worklist == order
    {
      this.p, this.sccOfFunc, this.state := p, sccOfFunc, StartState(p, order);
      StartStateIsInitial(p, order);
    }

    // The analysis is under way, in a lattice the program is monotone on.
    ghost predicate Running<A(!new)>(l: Lattice<G, A>)
      reads this
    {
      Invariant(p, state, {}) && MonotoneProgram(p, l) && Rising(p, l, state.ends, state.finals)
    }

    // f is being summarized.
    ghost predicate RunningOn<A(!new)>(l: Lattice<G, A>, f: Func)
      reads this
    {
      f in p.cfgs && Invariant(p, state, {f}) && MonotoneProgram(p, l) && Rising(p, l, state.ends, state.finals)
    }

    ghost function ToGain<A(!new)>(l: Lattice<G, A>): set<Gap<A>>
      requires Running(l)
      reads this
    {
      Gaps(p, l, state.ends, state.finals)
    }

    // Processes the blocks of f until none is scheduled.
    method SolveBlocks<A(!new)>(f: Func, ghost l: Lattice<G, A>)
      requires Invariant(p, state, {f}) && f in p.cfgs
      requires MonotoneProgram(p, l) && Rising(p, l, state.ends, state.finals)
      modifies this
      ensures Invariant(p, state, {f}) && OthersStay(p, old(state), state, f) && state.work[f] == []
      ensures Climbs(p, l, old(state), state)
    {
      while state.work[f] != []
        invariant Invariant(p, state, {f}) && OthersStay(p, old(state), state, f)
        invariant Climbs(p, l, old(state), state)
        decreases Gaps(p, l, state.ends, state.finals), |state.work[f]|
      {
        ghost var s := state;
        state := ProcessBlock(p, state, f);
        BlockStepRises(p, l, s, state, f, s.work[f][0], s.work[f][1..]);
        OthersStayStep(p, old(state), s, state, f, s.work[f][0], s.work[f][1..]);
      }
    }

    // Summarizes f again.
    method Resummarize<A(!new)>(f: Func, ghost l: Lattice<G, A>) returns (changed: bool)
      requires RunningOn(l, f)
      modifies this
      ensures Resummarized(p, old(state), state, f)
      ensures changed <==> state.finals[f] != old(state).finals[f]
      ensures MonotoneProgram(p, l) && Rising(p, l, state.ends, state.finals) && state.worklist == old(state).worklist
      ensures var gain, gain0 := Gaps(p, l, state.ends, state.finals), Gaps(p, l, old(state).ends, old(state).finals);
              gain < gain0 || (gain == gain0 && !changed)
    {
      SolveBlocks(f, l);
      var result := p.summarize(f, state.ends[f]);
      var same := state.finals[f] == result;
      SummaryRises(p, l, state.ends, state.finals, f);
      state := state.(finals := state.finals[f := result]);
      return !same;
    }

    // Takes the last function off the worklist.
    method TakeLast<A(!new)>(ghost l: Lattice<G, A>) returns (f: Func)
      requires Running(l) && |state.worklist| > 0
      modifies this
      ensures RunningOn(l, f) && state == old(state).(worklist := old(state).worklist[..|old(state).worklist| - 1])
      ensures Gaps(p, l, state.ends, state.finals) == old(ToGain(l))
    {
      f := state.worklist[|state.worklist| - 1];
      PopKeeps(p, state, f);
      state := state.(worklist := state.worklist[..|state.worklist| - 1]);
    }

    // Schedules the users of f's summary if that is new.
    method ScheduleUsers<A(!new)>(f: Func, changed: bool, ghost s: State<G>, ghost l: Lattice<G, A>)
      requires Resummarized(p, s, state, f) && (changed <==> state.finals[f] != s.finals[f])
      requires MonotoneProgram(p, l) && Rising(p, l, state.ends, state.finals)
      modifies this
      ensures Running(l) && ToGain(l) == Gaps(p, l, old(state).ends, old(state).finals)
      ensures !changed ==> state == old(state)
    {
      if changed {
        state := RescheduleUses(p, s, state, f, sccOfFunc);
      } else {
        UnchangedIsDone(p, s, state, f);
      }
    }

    // One round: summarizes the last function of the worklist, and schedules
    // the users of its summary if that is new.
    method SummarizeLast<A(!new)>(ghost l: Lattice<G, A>)
      requires Running(l) && |state.worklist| > 0
      modifies this
      ensures Running(l)
      ensures ToGain(l) < old(ToGain(l)) || (ToGain(l) == old(ToGain(l)) && |state.worklist| < |old(state).worklist|)
    {
      var f := TakeLast(l);
      ghost var s := state;
      var changed := Resummarize(f, l);
      ScheduleUsers(f, changed, s, l);
    }

    // Rounds until no function waits.
    method RunDry<A(!new)>(ghost l: Lattice<G, A>)
      requires Running(l)
      modifies this
      ensures Running(l) && state.worklist == []
    {
      while |state.worklist| > 0
        invariant Running(l)
        decreases ToGain(l), |state.worklist|
      {
        SummarizeLast(l);
      }
    }

    // The whole analysis, from the state before anything has been processed.
    method EscapeAnalysis<A(!new)>(ghost l: Lattice<G, A>)
      requires ValidProgram(p) && Initial(p, state) && MonotoneProgram(p, l)
      modifies this
      ensures state.worklist == [] && LeastSolved(p, l, state)
    {
      InitialKeeps(p, state);
      InitialRises(p, l, state);
      RunDry(l);
      QuietIsLeast(p, l, state);
    }
  }
}
