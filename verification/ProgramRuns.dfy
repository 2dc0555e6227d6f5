// Whole runs of the analysis of a program: what holds when they end, and that
// they go on until then.
module ProgramRuns {
  import opened Options
  import opened MonotoneFramework
  import opened WholeProgram
  import opened ProgramFixpoint

  // A state and the function that is being summarized, if any.
  datatype Config<!G> = Config(state: State<G>, busy: Option<Func>)

  ghost function Busy<G>(c: Config<G>): set<Func> {
    if c.busy.Some? then {c.busy.value} else {}
  }

  // One step of the analysis: the last function is taken off the worklist, its
  // first block is processed, or it gets its summary.
  ghost predicate Moves<G(!new)>(p: Program<G>, c: Config<G>, d: Config<G>) {
    && Shaped(p, c.state) && Shaped(p, d.state)
    && match c.busy
       case None => Takes(c.state, d.state, d.busy)
       case Some(f) => f in p.cfgs && (Processes(p, c.state, d.state, f, d.busy) || Summarizes(p, c.state, d.state, f, d.busy))
  }

  ghost predicate Takes<G>(s: State<G>, s': State<G>, busy: Option<Func>) {
    var n := |s.worklist|;
    n > 0 && busy == Some(s.worklist[n - 1]) && s' == s.(worklist := s.worklist[..n - 1])
  }

  ghost predicate Processes<G(!new)>(p: Program<G>, s: State<G>, s': State<G>, f: Func, busy: Option<Func>)
    requires Shaped(p, s) && Shaped(p, s') && f in p.cfgs
  {
    busy == Some(f) && s.work[f] != [] && BlockStep(p, s, s', f, s.work[f][0], s.work[f][1..])
  }

  ghost predicate Summarizes<G>(p: Program<G>, s: State<G>, s': State<G>, f: Func, busy: Option<Func>)
    requires Shaped(p, s) && Shaped(p, s') && f in p.cfgs
  {
    && busy == None && s.work[f] == []
    && if s.finals[f] == p.summarize(f, s.ends[f]) then s' == s else SummaryStep(p, s, s', f)
  }

  lemma MoveKeeps<G(!new)>(p: Program<G>, c: Config<G>, d: Config<G>)
    requires Moves(p, c, d) && Invariant(p, c.state, Busy(c))
    ensures Invariant(p, d.state, Busy(d))
  {
    match c.busy
    case None => PopKeeps(p, c.state, d.busy.value);
    case Some(f) =>
      if Processes(p, c.state, d.state, f, d.busy) {
        BlockStepKeeps(p, c.state, d.state, f, c.state.work[f][0], c.state.work[f][1..]);
      } else if c.state.finals[f] == p.summarize(f, c.state.ends[f]) {
        UnchangedKeeps(p, c.state, f);
      } else {
        SummaryStepKeeps(p, c.state, d.state, f);
      }
  }

  ghost predicate IsRun<G(!new)>(p: Program<G>, run: seq<Config<G>>) {
    && run != [] && Initial(p, run[0].state) && run[0].busy == None
    && forall i, j :: 0 <= i && j == i + 1 && j < |run| ==> Moves(p, run[i], run[j])
  }

  // However the transfer and the summaries behave, and whether or not the
  // analysis ends: when the worklist is empty all equations hold.
  lemma {:induction false} RunIsSafe<G(!new)>(p: Program<G>, run: seq<Config<G>>)
    requires ValidProgram(p) && IsRun(p, run)
    ensures var c := run[|run| - 1];
      Invariant(p, c.state, Busy(c)) && (c.busy == None && c.state.worklist == [] ==> Solved(p, c.state))
    decreases |run|
  {
    var n := |run| - 1;
    if n == 0 {
      InitialKeeps(p, run[0].state);
    } else {
      RunIsSafe(p, run[..n]);
      assert Moves(p, run[n - 1], run[n]);
      MoveKeeps(p, run[n - 1], run[n]);
    }
    if run[n].busy == None && run[n].state.worklist == [] {
      QuietIsSolved(p, run[n].state);
    }
  }

  // ------------------------------------------------------------ runs go on

  // The elements of a set in some order.
  ghost function Listed<T(!new)>(s: set<T>): (r: seq<T>)
    ensures forall x :: x in r <==> x in s
  {
    if s == {} then []
    else
      var x :| x in s;
      Listed(s - {x}) + [x]
  }

  // Block b of f recomputed.
  ghost function Recomputed<G>(p: Program<G>, s: State<G>, f: Func, b: Block, work: seq<Block>): State<G>
    requires Shaped(p, s) && f in p.cfgs
  {
    State(s.ends[f := s.ends[f][b := p.transfer(f, b, s.ends[f], s.finals)]], s.work[f := work], s.finals,
          Recorded(s.uses, s.finals, f, SitesAt(p, f, b)), s.worklist)
  }

  lemma RecomputedShaped<G(!new)>(p: Program<G>, s: State<G>, f: Func, b: Block, work: seq<Block>)
    requires Shaped(p, s) && f in p.cfgs
    ensures Shaped(p, Recomputed(p, s, f, b, work))
  {
    RecordedShape(s.uses, s.finals, f, SitesAt(p, f, b));
  }

  lemma RecomputedIsStep<G(!new)>(p: Program<G>, s: State<G>, f: Func, b: Block, rest: seq<Block>) returns (s': State<G>)
    requires Shaped(p, s) && f in p.cfgs && s.work[f] == [b] + rest && b in p.cfgs[f].succs
    ensures Shaped(p, s') && BlockStep(p, s, s', f, b, rest)
  {
    var e' := s.ends[f][b := p.transfer(f, b, s.ends[f], s.finals)];
    var work := if e' != s.ends[f] then rest + p.cfgs[f].succs[b] else rest;
    s' := Recomputed(p, s, f, b, work);
    RecomputedShaped(p, s, f, b, work);
  }

  lemma BlockStepExists<G(!new)>(p: Program<G>, s: State<G>, f: Func) returns (s': State<G>)
    requires Invariant(p, s, {f}) && f in p.cfgs && s.work[f] != []
    ensures Shaped(p, s') && BlockStep(p, s, s', f, s.work[f][0], s.work[f][1..])
  {
    assert Kept(p, s, {f}, f);
    FirstIsBlock(p.cfgs[f], s.ends[f], s.work[f]);
    s' := RecomputedIsStep(p, s, f, s.work[f][0], s.work[f][1..]);
  }

  ghost function StaleBlocks<G>(used: map<Use, G>, final: G, g: Func): set<Block> {
    set u | u in used && used[u] != final && u.user == g :: u.instruction.block
  }

  ghost function StaleUsers<G>(used: map<Use, G>, final: G): set<Func> {
    set u | u in used && used[u] != final :: u.user
  }

  // f with a new summary, and the users of another one scheduled.
  ghost function Replaced<G>(p: Program<G>, s: State<G>, f: Func, final: G): State<G>
    requires Shaped(p, s) && f in p.cfgs
  {
    State(s.ends,
          map g | g in p.cfgs :: s.work[g] + Listed(StaleBlocks(s.uses[f], final, g)),
          s.finals[f := final], s.uses, s.worklist + Listed(StaleUsers(s.uses[f], final)))
  }

  lemma ReplacedShaped<G(!new)>(p: Program<G>, s: State<G>, f: Func, final: G)
    requires Shaped(p, s) && f in p.cfgs && UsesAreSites(p, s, f)
    ensures Shaped(p, Replaced(p, s, f, final))
  {
    forall g | g in StaleUsers(s.uses[f], final) ensures g in p.cfgs {
      var u :| u in s.uses[f] && s.uses[f][u] != final && u.user == g;
      assert UseIsSite(p, s, f, u);
    }
  }

  lemma StaleUsersAre<G(!new)>(p: Program<G>, s: State<G>, f: Func, final: G, g: Func)
    requires Shaped(p, s) && f in p.cfgs
    ensures g in StaleUsers(s.uses[f], final) <==> exists x :: Stale(p, s, final, f, g, x)
  {
    if g in StaleUsers(s.uses[f], final) {
      var u :| u in s.uses[f] && s.uses[f][u] != final && u.user == g;
      assert Stale(p, s, final, f, g, u.instruction.block);
    }
  }

  lemma ReplacedWork<G(!new)>(p: Program<G>, s: State<G>, f: Func, final: G, g: Func, x: Block)
    requires Shaped(p, s) && f in p.cfgs && g in p.cfgs
    ensures x in Replaced(p, s, f, final).work[g] <==> x in s.work[g] || Stale(p, s, final, f, g, x)
  {
    assert Stale(p, s, final, f, g, x) <==> x in StaleBlocks(s.uses[f], final, g);
  }

  lemma ReplacedIsStep<G(!new)>(p: Program<G>, s: State<G>, f: Func, final: G)
    requires Shaped(p, s) && f in p.cfgs && UsesAreSites(p, s, f)
    requires s.work[f] == [] && final == p.summarize(f, s.ends[f])
    ensures Shaped(p, Replaced(p, s, f, final)) && SummaryStep(p, s, Replaced(p, s, f, final), f)
  {
    ReplacedShaped(p, s, f, final);
    forall g ensures g in StaleUsers(s.uses[f], final) <==> exists x :: Stale(p, s, final, f, g, x) {
      StaleUsersAre(p, s, f, final, g);
    }
    forall g, x | g in p.cfgs ensures x in Replaced(p, s, f, final).work[g] <==> x in s.work[g] || Stale(p, s, final, f, g, x) {
      ReplacedWork(p, s, f, final, g, x);
    }
  }

  lemma SummaryStepExists<G(!new)>(p: Program<G>, s: State<G>, f: Func) returns (s': State<G>)
    requires Invariant(p, s, {f}) && f in p.cfgs && s.work[f] == []
    ensures Shaped(p, s') && SummaryStep(p, s, s', f)
  {
    var final := p.summarize(f, s.ends[f]);
    assert Kept(p, s, {f}, f);
    ReplacedIsStep(p, s, f, final);
    s' := Replaced(p, s, f, final);
  }

  lemma BusyIsFunction<G(!new)>(p: Program<G>, run: seq<Config<G>>)
    requires IsRun(p, run) && run[|run| - 1].busy.Some?
    ensures run[|run| - 1].busy.value in p.cfgs
  {
    var n := |run| - 1;
    var c, d := run[n - 1], run[n];
    assert Moves(p, c, d);
    match c.busy
    case None =>
      var f := c.state.worklist[|c.state.worklist| - 1];
      assert f in c.state.worklist;
    case Some(f) =>
  }

  // Work on the function f.
  lemma WorkGoesOn<G(!new)>(p: Program<G>, s: State<G>, f: Func) returns (d: Config<G>)
    requires Invariant(p, s, {f}) && f in p.cfgs
    ensures Moves(p, Config(s, Some(f)), d)
  {
    if s.work[f] != [] {
      var s' := BlockStepExists(p, s, f);
      d := Config(s', Some(f));
    } else if s.finals[f] == p.summarize(f, s.ends[f]) {
      d := Config(s, None);
    } else {
      var s' := SummaryStepExists(p, s, f);
      d := Config(s', None);
    }
  }

  // The analysis is never stuck: a run can end only with an empty worklist.
  lemma RunGoesOn<G(!new)>(p: Program<G>, run: seq<Config<G>>) returns (d: Config<G>)
    requires ValidProgram(p) && IsRun(p, run)
    requires var c := run[|run| - 1]; c.busy == None ==> c.state.worklist != []
    ensures IsRun(p, run + [d])
  {
    var c := run[|run| - 1];
    RunIsSafe(p, run);
    match c.busy
    case None =>
      var n := |c.state.worklist|;
      d := Config(c.state.(worklist := c.state.worklist[..n - 1]), Some(c.state.worklist[n - 1]));
    case Some(f) =>
      BusyIsFunction(p, run);
      d := WorkGoesOn(p, c.state, f);
  }

  // ------------------------------------------------------------ monotone programs

  // A monotone program has been run so far: graphs and summaries climb towards
  // the least solution.
  ghost predicate Climbing<G(!new), A(!new)>(p: Program<G>, l: Lattice<G, A>, c: Config<G>) {
    MonotoneProgram(p, l) && Invariant(p, c.state, Busy(c)) && Rising(p, l, c.state.ends, c.state.finals)
  }

  // How much there is to do if nothing more is gained.
  function ToDo<G>(c: Config<G>): nat {
    2 * |c.state.worklist| + if c.busy == None then 0 else 1
  }

  function BlocksToDo<G>(c: Config<G>): nat {
    match c.busy
    case None => 0
    case Some(f) => if f in c.state.work then |c.state.work[f]| else 0
  }

  ghost function ToGain<G, A>(p: Program<G>, l: Lattice<G, A>, c: Config<G>): set<Gap<A>> {
    if Shaped(p, c.state) then Gaps(p, l, c.state.ends, c.state.finals) else {}
  }

  // From c to d something is gained, or less is left to do.
  ghost predicate Descends<G, A>(p: Program<G>, l: Lattice<G, A>, c: Config<G>, d: Config<G>) {
    || ToGain(p, l, d) < ToGain(p, l, c)
    || (ToGain(p, l, d) == ToGain(p, l, c) && (ToDo(d) < ToDo(c) || (ToDo(d) == ToDo(c) && BlocksToDo(d) < BlocksToDo(c))))
  }

  lemma ProcessingRises<G(!new), A(!new)>(p: Program<G>, l: Lattice<G, A>, c: Config<G>, d: Config<G>, f: Func)
    requires Climbing(p, l, c) && c.busy == Some(f) && f in p.cfgs && Shaped(p, d.state)
    requires Processes(p, c.state, d.state, f, d.busy)
    ensures Rising(p, l, d.state.ends, d.state.finals)
    ensures ToGain(p, l, d) < ToGain(p, l, c) || d.state.ends == c.state.ends
  {
    BlockStepRises(p, l, c.state, d.state, f, c.state.work[f][0], c.state.work[f][1..]);
  }

  lemma ProcessingDescends<G(!new), A>(p: Program<G>, l: Lattice<G, A>, c: Config<G>, d: Config<G>, f: Func)
    requires c.busy == Some(f) && f in p.cfgs && Shaped(p, c.state) && Shaped(p, d.state)
    requires Processes(p, c.state, d.state, f, d.busy)
    requires ToGain(p, l, d) < ToGain(p, l, c) || d.state.ends == c.state.ends
    ensures Descends(p, l, c, d)
  {
    if d.state.ends == c.state.ends {
      ProcessingShortens(p, c, d, f, c.state.work[f][0], c.state.work[f][1..]);
    }
  }

  lemma ProcessingShortens<G(!new)>(p: Program<G>, c: Config<G>, d: Config<G>, f: Func, b: Block, rest: seq<Block>)
    requires Shaped(p, c.state) && Shaped(p, d.state) && f in p.cfgs && c.busy == Some(f) && d.busy == Some(f)
    requires BlockStep(p, c.state, d.state, f, b, rest) && d.state.ends == c.state.ends
    ensures d.state.finals == c.state.finals && ToDo(d) == ToDo(c) && BlocksToDo(d) < BlocksToDo(c)
  {
  }

  lemma SummarizingDescends<G(!new), A(!new)>(p: Program<G>, l: Lattice<G, A>, c: Config<G>, d: Config<G>, f: Func)
    requires Climbing(p, l, c) && c.busy == Some(f) && f in p.cfgs && Shaped(p, d.state)
    requires Summarizes(p, c.state, d.state, f, d.busy)
    ensures Rising(p, l, d.state.ends, d.state.finals) && Descends(p, l, c, d)
  {
    SummaryRises(p, l, c.state.ends, c.state.finals, f);
  }

  // Every step of a monotone program climbs, and brings the run closer to its end.
  lemma MoveClimbs<G(!new), A(!new)>(p: Program<G>, l: Lattice<G, A>, c: Config<G>, d: Config<G>)
    requires Climbing(p, l, c) && Moves(p, c, d)
    ensures Climbing(p, l, d) && Descends(p, l, c, d)
  {
    MoveKeeps(p, c, d);
    match c.busy
    case None =>
    case Some(f) =>
      if Processes(p, c.state, d.state, f, d.busy) {
        ProcessingRises(p, l, c, d, f);
        ProcessingDescends(p, l, c, d, f);
      } else {
        SummarizingDescends(p, l, c, d, f);
      }
  }

  lemma StartClimbs<G(!new), A(!new)>(p: Program<G>, l: Lattice<G, A>, c: Config<G>)
    requires ValidProgram(p) && MonotoneProgram(p, l) && Initial(p, c.state) && c.busy == None
    ensures Climbing(p, l, c)
  {
    InitialKeeps(p, c.state);
    InitialRises(p, l, c.state);
  }

  lemma {:induction false} RunClimbs<G(!new), A(!new)>(p: Program<G>, l: Lattice<G, A>, run: seq<Config<G>>)
    requires ValidProgram(p) && MonotoneProgram(p, l) && IsRun(p, run)
    ensures Climbing(p, l, run[|run| - 1])
    decreases |run|
  {
    var n := |run| - 1;
    if n == 0 {
      StartClimbs(p, l, run[0]);
    } else {
      RunClimbs(p, l, run[..n]);
      assert Moves(p, run[n - 1], run[n]);
      MoveClimbs(p, l, run[n - 1], run[n]);
    }
  }

  // In every run of a monotone program, whatever its order, graphs and summaries
  // stay below every solution, and are the least one when the worklist is empty.
  lemma RunIsLeast<G(!new), A(!new)>(p: Program<G>, l: Lattice<G, A>, run: seq<Config<G>>)
    requires ValidProgram(p) && MonotoneProgram(p, l) && IsRun(p, run)
    ensures var c := run[|run| - 1];
      Rising(p, l, c.state.ends, c.state.finals) && (c.busy == None && c.state.worklist == [] ==> LeastSolved(p, l, c.state))
  {
    var c := run[|run| - 1];
    RunClimbs(p, l, run);
    if c.busy == None && c.state.worklist == [] {
      QuietIsLeast(p, l, c.state);
    }
  }

  lemma {:induction false} EndsAfter<G(!new), A(!new)>(p: Program<G>, l: Lattice<G, A>, run: nat -> Config<G>, n: nat)
    requires Climbing(p, l, run(n))
    ensures exists i: nat :: !Moves(p, run(i), run(i + 1))
    decreases ToGain(p, l, run(n)), ToDo(run(n)), BlocksToDo(run(n))
  {
    if Moves(p, run(n), run(n + 1)) {
      MoveClimbs(p, l, run(n), run(n + 1));
      EndsAfter(p, l, run, n + 1);
    }
  }

  // No run of a monotone program goes on for ever.
  lemma RunEnds<G(!new), A(!new)>(p: Program<G>, l: Lattice<G, A>, run: nat -> Config<G>)
    requires ValidProgram(p) && MonotoneProgram(p, l) && Initial(p, run(0).state) && run(0).busy == None
    ensures exists i: nat :: !Moves(p, run(i), run(i + 1))
  {
    StartClimbs(p, l, run(0));
    EndsAfter(p, l, run, 0);
  }
}
