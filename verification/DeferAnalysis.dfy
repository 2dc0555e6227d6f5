// The defer analysis: a fixpoint over the blocks of a function.  It finds
// exactly the deduplicated defer stacks of the paths, whatever the visiting
// order.
module DeferAnalysis {
  import opened DistinctSeqs
  import opened DeferStacks
  import opened DeferPaths

  // Recorded stack sets, by the position of the RunDefers.
  type RunDeferSets = map<InstrIndices, StackSet>

  ghost predicate IsRunDefers(c: DeferCfg, at: InstrIndices) {
    at.block < |c.instrs| && at.ins < |c.instrs[at.block]| && c.instrs[at.block][at.ins] == RunDefers
  }

  // ------------------------------------------------------------ one block

  // sets holds, for the RunDefers among the first j instructions of b, the
  // stacks that reach them from the stacks x on entry.
  ghost predicate RecordsBlock(c: DeferCfg, sets: RunDeferSets, b: nat, j: nat, x: set<Stack>)
    requires b < |c.instrs| && j <= |c.instrs[b]|
  {
    forall k {:trigger c.instrs[b][k]} :: 0 <= k < j && c.instrs[b][k] == RunDefers ==>
      InstrIndices(b, k) in sets && Sorted(sets[InstrIndices(b, k)])
      && Elems(sets[InstrIndices(b, k)]) == RunSet(c, b, k, x)
  }

  // Nothing outside block b has changed, and only RunDefers are recorded.
  ghost predicate RecordsOnly(c: DeferCfg, before: RunDeferSets, after: RunDeferSets, b: nat, j: nat)
    requires b < |c.instrs| && j <= |c.instrs[b]|
  {
    && (forall at :: at in before ==> at in after)
    && (forall at :: at in after && at.block != b ==> at in before && after[at] == before[at])
    && (forall at :: at in after && at !in before ==> at.block == b && at.ins < j && c.instrs[b][at.ins] == RunDefers)
  }

  ghost predicate SomeRepeat(c: DeferCfg, b: nat, j: nat, x: set<Stack>)
    requires b < |c.instrs|
  {
    exists s, k: nat :: s in x && k < j && RepeatsAt(c, b, k, s)
  }

  lemma RunSetStep(c: DeferCfg, b: nat, j: nat, x: set<Stack>)
    requires b < |c.instrs| && j < |c.instrs[b]| && x != {}
    ensures RunSet(c, b, j + 1, x) == StepSet(RunSet(c, b, j, x), InstrIndices(b, j), c.instrs[b][j])
    ensures SomeRepeat(c, b, j + 1, x) <==>
              SomeRepeat(c, b, j, x)
              || (c.instrs[b][j] == Defer && exists t :: t in RunSet(c, b, j, x) && InstrIndices(b, j) in t)
  {
    var at, instr := InstrIndices(b, j), c.instrs[b][j];
    forall s | s in x ensures Run(c, b, j + 1, s) == StepStack(Run(c, b, j, s), at, instr) {}
    var some :| some in x;
    assert Run(c, b, j + 1, some) in RunSet(c, b, j + 1, x);
    forall t | t in StepSet(RunSet(c, b, j, x), at, instr) ensures t in RunSet(c, b, j + 1, x) {
      if instr != RunDefers {
        var r :| r in RunSet(c, b, j, x) && t == StepStack(r, at, instr);
        var s :| s in x && r == Run(c, b, j, s);
        assert t == Run(c, b, j + 1, s);
      }
    }
    if SomeRepeat(c, b, j + 1, x) {
      var s, k: nat :| s in x && k < j + 1 && RepeatsAt(c, b, k, s);
      assert Run(c, b, k, s) in RunSet(c, b, k, x);
    }
    if instr == Defer && exists t :: t in RunSet(c, b, j, x) && at in t {
      var t :| t in RunSet(c, b, j, x) && at in t;
      var s :| s in x && t == Run(c, b, j, s);
      assert RepeatsAt(c, b, j, s);
    }
  }

  // Pushes a set of stacks through the instructions of a block, recording the
  // set at each RunDefers.
  method ProcessInstrs(c: DeferCfg, b: nat, initial: StackSet, sets0: RunDeferSets, rep0: bool)
    returns (value: StackSet, sets: RunDeferSets, rep: bool)
    requires b < |c.instrs| && Sorted(initial) && initial != []
    ensures Sorted(value) && Elems(value) == RunSet(c, b, |c.instrs[b]|, Elems(initial))
    ensures RecordsBlock(c, sets, b, |c.instrs[b]|, Elems(initial)) && RecordsOnly(c, sets0, sets, b, |c.instrs[b]|)
    ensures rep <==> rep0 || SomeRepeat(c, b, |c.instrs[b]|, Elems(initial))
  {
    value, sets, rep := initial, sets0, rep0;
    var instrs := c.instrs[b];
    EmptyElems(initial);
    for j := 0 to |instrs|
      invariant Sorted(value) && Elems(value) == RunSet(c, b, j, Elems(initial))
      invariant RecordsBlock(c, sets, b, j, Elems(initial)) && RecordsOnly(c, sets0, sets, b, j)
      invariant rep <==> rep0 || SomeRepeat(c, b, j, Elems(initial))
    {
      if instrs[j] == RunDefers {
        sets := sets[InstrIndices(b, j) := value];
      }
      RunSetStep(c, b, j, Elems(initial));
      var newValue, repeated := DataflowTransfer(b, j, instrs[j], value);
      assert repeated <==> instrs[j] == Defer && exists t :: t in Elems(value) && InstrIndices(b, j) in t;
      value := newValue;
      rep := rep || repeated;
    }
  }

  // ------------------------------------------------------------ all blocks

  // States are the initial stack sets of the blocks, flags mark the blocks to
  // look at again.
  ghost predicate Sound(c: DeferCfg, states: seq<StackSet>) {
    && |states| == |c.instrs|
    && (forall i :: 0 <= i < |states| ==> Sorted(states[i]))
    && (forall i, s :: 0 <= i < |states| && s in states[i] ==> EntryReaches(c, i, s))
    && (|states| > 0 ==> [] in states[0])
  }

  ghost predicate EntryReaches(c: DeferCfg, i: nat, s: Stack) {
    exists p :: IsPath(c, p) && Last(p) == i && Entry(c, p) == s
  }

  // Block i has been pushed to its successors, its RunDefers are recorded and
  // its repetitions noted.
  ghost predicate Done(c: DeferCfg, states: seq<StackSet>, sets: RunDeferSets, rep: bool, i: nat)
    requires |states| == |c.instrs| == |c.succs| && i < |states|
  {
    && (forall k :: k in c.succs[i] && k < |states| ==> RunSet(c, i, |c.instrs[i]|, Elems(states[i])) <= Elems(states[k]))
    && (states[i] != [] ==> RecordsBlock(c, sets, i, |c.instrs[i]|, Elems(states[i])))
    && (SomeRepeat(c, i, |c.instrs[i]|, Elems(states[i])) ==> rep)
  }

  ghost predicate RecordsSound(c: DeferCfg, states: seq<StackSet>, sets: RunDeferSets, rep: bool)
    requires |states| == |c.instrs|
  {
    && (forall at :: at in sets ==> IsRunDefers(c, at) && states[at.block] != [])
    && (rep ==> !Bounded(c))
  }

  ghost predicate Analysing(c: DeferCfg, states: seq<StackSet>, flags: seq<bool>, sets: RunDeferSets, rep: bool) {
    && ValidDeferCfg(c) && Sound(c, states) && |flags| == |states|
    && RecordsSound(c, states, sets, rep)
    && (forall i :: 0 <= i < |states| && !flags[i] ==> Done(c, states, sets, rep, i))
    && (forall i :: 0 <= i < |states| && flags[i] ==> states[i] != [])
  }

  // ------------------------------------------------------------ the result

  // The answer, in terms of paths only.
  ghost predicate Exact(c: DeferCfg, bounded: bool, sets: RunDeferSets) {
    && (bounded <==> Bounded(c))
    && (forall at :: at in sets <==> IsRunDefers(c, at) && BlockReached(c, at.block))
    && (forall at :: at in sets ==> Sorted(sets[at]) && forall s :: s in sets[at] <==> StackReaches(c, at, s))
  }

  // The answer is determined by the function alone, not by the visiting order.
  lemma ExactUnique(c: DeferCfg, bounded: bool, sets: RunDeferSets, bounded': bool, sets': RunDeferSets)
    requires Exact(c, bounded, sets) && Exact(c, bounded', sets')
    ensures bounded == bounded' && sets == sets'
  {
    assert sets.Keys == sets'.Keys;
    forall at | at in sets ensures sets[at] == sets'[at] {
      assert forall s :: s in sets[at] <==> StackReaches(c, at, s);
      assert forall s :: s in sets'[at] <==> StackReaches(c, at, s);
      SortedUnique(sets[at], sets'[at]);
    }
  }

  // With no flag set, every stack of every path has been found.
  lemma {:induction false} AllEntriesFound(c: DeferCfg, states: seq<StackSet>, flags: seq<bool>, sets: RunDeferSets, rep: bool, p: seq<nat>)
    requires Analysing(c, states, flags, sets, rep) && (forall i :: 0 <= i < |flags| ==> !flags[i])
    requires IsPath(c, p)
    ensures Entry(c, p) in states[Last(p)]
  {
    if |p| > 1 {
      var q := p[..|p| - 1];
      AllEntriesFound(c, states, flags, sets, rep, q);
      var i := Last(q);
      assert Done(c, states, sets, rep, i);
      assert Last(p) in c.succs[i];
      assert Entry(c, p) in RunSet(c, i, |c.instrs[i]|, Elems(states[i]));
    }
  }

  lemma ReachesBoth(c: DeferCfg, states: seq<StackSet>, flags: seq<bool>, sets: RunDeferSets, rep: bool, at: InstrIndices, s: Stack)
    requires Analysing(c, states, flags, sets, rep) && (forall i :: 0 <= i < |flags| ==> !flags[i])
    requires at in sets
    ensures s in sets[at] <==> StackReaches(c, at, s)
  {
    var b, j := at.block, at.ins;
    assert Done(c, states, sets, rep, b);
    assert c.instrs[b][j] == RunDefers && at == InstrIndices(b, j);
    assert Elems(sets[at]) == RunSet(c, b, j, Elems(states[b]));
    if s in sets[at] {
      assert s in RunSet(c, b, j, Elems(states[b]));
      var e :| e in Elems(states[b]) && s == Run(c, b, j, e);
      assert EntryReaches(c, b, e);
      var p :| IsPath(c, p) && Last(p) == b && Entry(c, p) == e;
      RunAtIsFirstOccurrences(c, p, j);
    }
    if StackReaches(c, at, s) {
      var p :| IsPath(c, p) && Last(p) == b && s == FirstOccurrences(RealAt(c, p, j));
      AllEntriesFound(c, states, flags, sets, rep, p);
      RunAtIsFirstOccurrences(c, p, j);
      assert s in RunSet(c, b, j, Elems(states[b]));
    }
  }

  lemma QuietIsExact(c: DeferCfg, states: seq<StackSet>, flags: seq<bool>, sets: RunDeferSets, rep: bool)
    requires Analysing(c, states, flags, sets, rep) && (forall i :: 0 <= i < |flags| ==> !flags[i])
    ensures Exact(c, !rep, sets)
  {
    BoundedIffNoRepeat(c);
    forall p, j: nat {:trigger RepeatsAt(c, Last(p), j, Entry(c, p))} | IsPath(c, p) && RepeatsAt(c, Last(p), j, Entry(c, p)) ensures rep {
      AllEntriesFound(c, states, flags, sets, rep, p);
      assert Done(c, states, sets, rep, Last(p));
    }
    forall at ensures at in sets <==> IsRunDefers(c, at) && BlockReached(c, at.block) {
      if at in sets {
        assert states[at.block][0] in states[at.block];
        assert EntryReaches(c, at.block, states[at.block][0]);
      }
      if IsRunDefers(c, at) && BlockReached(c, at.block) {
        var p :| IsPath(c, p) && Last(p) == at.block;
        AllEntriesFound(c, states, flags, sets, rep, p);
        assert Done(c, states, sets, rep, at.block);
        assert c.instrs[at.block][at.ins] == RunDefers && at == InstrIndices(at.block, at.ins);
      }
    }
    forall at | at in sets ensures Sorted(sets[at]) && forall s :: s in sets[at] <==> StackReaches(c, at, s) {
      assert Done(c, states, sets, rep, at.block);
      assert c.instrs[at.block][at.ins] == RunDefers && at == InstrIndices(at.block, at.ins);
      forall s ensures s in sets[at] <==> StackReaches(c, at, s) {
        ReachesBoth(c, states, flags, sets, rep, at, s);
      }
    }
  }

  // ------------------------------------------------------------ one visit

  // Block b was flagged; it has been processed, and its stacks pushed to its
  // successors, which are flagged if that gave them new stacks.
  ghost predicate Visited(c: DeferCfg, st: seq<StackSet>, st': seq<StackSet>, fl: seq<bool>, fl': seq<bool>,
                          sets: RunDeferSets, sets': RunDeferSets, rep: bool, rep': bool, b: nat)
    requires ValidDeferCfg(c) && |st| == |st'| == |fl| == |fl'| == |c.instrs| && b < |st|
  {
    && RecordsBlock(c, sets', b, |c.instrs[b]|, Elems(st[b])) && RecordsOnly(c, sets, sets', b, |c.instrs[b]|)
    && (rep' <==> rep || SomeRepeat(c, b, |c.instrs[b]|, Elems(st[b])))
    && (forall k :: 0 <= k < |st| ==> Pushed(c, st, st', fl, fl', b, RunSet(c, b, |c.instrs[b]|, Elems(st[b])), k))
  }

  ghost predicate Pushed(c: DeferCfg, st: seq<StackSet>, st': seq<StackSet>, fl: seq<bool>, fl': seq<bool>, b: nat, out: set<Stack>, k: nat)
    requires ValidDeferCfg(c) && |st| == |st'| == |fl| == |fl'| == |c.instrs| && b < |st| && k < |st|
  {
    && Sorted(st'[k])
    && Elems(st'[k]) == (if k in c.succs[b] then Elems(st[k]) + out else Elems(st[k]))
    && (fl'[k] <==> (k != b && fl[k]) || st'[k] != st[k])
  }

  lemma VisitKeepsSound(c: DeferCfg, st: seq<StackSet>, st': seq<StackSet>, fl: seq<bool>, fl': seq<bool>,
                        sets: RunDeferSets, sets': RunDeferSets, rep: bool, rep': bool, b: nat)
    requires Analysing(c, st, fl, sets, rep) && |st'| == |fl'| == |c.instrs| && b < |st|
    requires Visited(c, st, st', fl, fl', sets, sets', rep, rep', b)
    ensures Sound(c, st')
  {
    var out := RunSet(c, b, |c.instrs[b]|, Elems(st[b]));
    forall i, s | 0 <= i < |st'| && s in st'[i] ensures EntryReaches(c, i, s) {
      assert Pushed(c, st, st', fl, fl', b, out, i);
      assert s in Elems(st'[i]);
      if s !in st[i] {
        var e :| e in Elems(st[b]) && s == Run(c, b, |c.instrs[b]|, e);
        assert EntryReaches(c, b, e);
        var p :| IsPath(c, p) && Last(p) == b && Entry(c, p) == e;
        PathSnoc(c, p, i);
      }
    }
    forall i | 0 <= i < |st'| ensures Sorted(st'[i]) {
      assert Pushed(c, st, st', fl, fl', b, out, i);
    }
    if |st'| > 0 {
      assert Pushed(c, st, st', fl, fl', b, out, 0);
      assert [] in Elems(st'[0]);
    }
  }

  lemma VisitKeepsRecords(c: DeferCfg, st: seq<StackSet>, st': seq<StackSet>, fl: seq<bool>, fl': seq<bool>,
                          sets: RunDeferSets, sets': RunDeferSets, rep: bool, rep': bool, b: nat)
    requires Analysing(c, st, fl, sets, rep) && |st'| == |fl'| == |c.instrs| && b < |st| && st[b] != []
    requires Visited(c, st, st', fl, fl', sets, sets', rep, rep', b)
    ensures RecordsSound(c, st', sets', rep')
  {
    var out := RunSet(c, b, |c.instrs[b]|, Elems(st[b]));
    forall at | at in sets' ensures IsRunDefers(c, at) && st'[at.block] != [] {
      assert Pushed(c, st, st', fl, fl', b, out, at.block);
      EmptyElems(st[at.block]);
      EmptyElems(st'[at.block]);
    }
    if SomeRepeat(c, b, |c.instrs[b]|, Elems(st[b])) {
      var s, k: nat :| s in Elems(st[b]) && k < |c.instrs[b]| && RepeatsAt(c, b, k, s);
      assert EntryReaches(c, b, s);
      var p :| IsPath(c, p) && Last(p) == b && Entry(c, p) == s;
      assert RepeatsAt(c, Last(p), k, Entry(c, p));
      BoundedIffNoRepeat(c);
    }
  }

  lemma VisitKeepsDone(c: DeferCfg, st: seq<StackSet>, st': seq<StackSet>, fl: seq<bool>, fl': seq<bool>,
                       sets: RunDeferSets, sets': RunDeferSets, rep: bool, rep': bool, b: nat, i: nat)
    requires Analysing(c, st, fl, sets, rep) && |st'| == |fl'| == |c.instrs| && b < |st|
    requires Visited(c, st, st', fl, fl', sets, sets', rep, rep', b)
    requires i < |st| && !fl'[i]
    ensures Done(c, st', sets', rep', i)
  {
    var out := RunSet(c, b, |c.instrs[b]|, Elems(st[b]));
    assert Pushed(c, st, st', fl, fl', b, out, i);
    assert st'[i] == st[i];
    forall k | k in c.succs[i] && k < |st| ensures RunSet(c, i, |c.instrs[i]|, Elems(st[i])) <= Elems(st'[k]) {
      assert Pushed(c, st, st', fl, fl', b, out, k);
      if i != b {
        assert Done(c, st, sets, rep, i);
      }
    }
    if i != b {
      assert Done(c, st, sets, rep, i);
      if st[i] != [] {
        forall k | 0 <= k < |c.instrs[i]| && c.instrs[i][k] == RunDefers
          ensures InstrIndices(i, k) in sets' && Sorted(sets'[InstrIndices(i, k)])
          ensures Elems(sets'[InstrIndices(i, k)]) == RunSet(c, i, k, Elems(st[i]))
        {
          assert InstrIndices(i, k) in sets;
        }
      }
    }
  }

  lemma VisitKeeps(c: DeferCfg, st: seq<StackSet>, st': seq<StackSet>, fl: seq<bool>, fl': seq<bool>,
                   sets: RunDeferSets, sets': RunDeferSets, rep: bool, rep': bool, b: nat)
    requires Analysing(c, st, fl, sets, rep) && |st'| == |fl'| == |c.instrs| && b < |st| && st[b] != []
    requires Visited(c, st, st', fl, fl', sets, sets', rep, rep', b)
    ensures Analysing(c, st', fl', sets', rep')
  {
    VisitKeepsSound(c, st, st', fl, fl', sets, sets', rep, rep', b);
    VisitKeepsRecords(c, st, st', fl, fl', sets, sets', rep, rep', b);
    forall i | 0 <= i < |st'| && !fl'[i] ensures Done(c, st', sets', rep', i) {
      VisitKeepsDone(c, st, st', fl, fl', sets, sets', rep, rep', b, i);
    }
    forall i | 0 <= i < |st'| && fl'[i] ensures st'[i] != [] {
      assert Pushed(c, st, st', fl, fl', b, RunSet(c, b, |c.instrs[b]|, Elems(st[b])), i);
      EmptyElems(st[i]);
      EmptyElems(st'[i]);
    }
  }

  // ------------------------------------------------------------ termination

  // The stacks that blocks could still gain, and the blocks flagged.
  ghost function Missing(c: DeferCfg, st: seq<StackSet>): set<(nat, Stack)> {
    set i: nat, s | i < |st| && s in Universe(Positions(c)) && s !in st[i] :: (i, s)
  }

  ghost function Flagged(fl: seq<bool>): set<nat> {
    set i: nat | i < |fl| && fl[i]
  }

  ghost predicate Closer(c: DeferCfg, st: seq<StackSet>, fl: seq<bool>, st': seq<StackSet>, fl': seq<bool>) {
    Missing(c, st') < Missing(c, st) || (Missing(c, st') == Missing(c, st) && Flagged(fl') < Flagged(fl))
  }

  // A visit either finds a new stack or leaves one block less flagged.
  lemma VisitIsCloser(c: DeferCfg, st: seq<StackSet>, st': seq<StackSet>, fl: seq<bool>, fl': seq<bool>,
                      sets: RunDeferSets, sets': RunDeferSets, rep: bool, rep': bool, b: nat)
    requires Analysing(c, st, fl, sets, rep) && |st'| == |fl'| == |c.instrs| && b < |st| && fl[b]
    requires Visited(c, st, st', fl, fl', sets, sets', rep, rep', b) && Sound(c, st')
    ensures Closer(c, st, fl, st', fl')
  {
    var out := RunSet(c, b, |c.instrs[b]|, Elems(st[b]));
    forall i, s | 0 <= i < |st| && s in st[i] ensures s in st'[i] {
      assert Pushed(c, st, st', fl, fl', b, out, i);
      assert s in Elems(st'[i]);
    }
    assert Missing(c, st') <= Missing(c, st);
    if i :| 0 <= i < |st| && st'[i] != st[i] {
      assert Pushed(c, st, st', fl, fl', b, out, i);
      if Elems(st'[i]) == Elems(st[i]) {
        SortedUnique(st'[i], st[i]);
      }
      var s :| s in Elems(st'[i]) && s !in Elems(st[i]);
      assert EntryReaches(c, i, s);
      var p :| IsPath(c, p) && Entry(c, p) == s;
      EntryStays(c, p);
      InUniverse(s, Positions(c));
      assert (i, s) in Missing(c, st) && (i, s) !in Missing(c, st');
    } else {
      assert st' == st;
      forall i | 0 <= i < |st| ensures fl'[i] <==> i != b && fl[i] {
        assert Pushed(c, st, st', fl, fl', b, out, i);
      }
      assert b in Flagged(fl) && b !in Flagged(fl');
      assert Flagged(fl') < Flagged(fl);
    }
  }

  lemma CloserTrans(c: DeferCfg, st: seq<StackSet>, fl: seq<bool>, st1: seq<StackSet>, fl1: seq<bool>, st2: seq<StackSet>, fl2: seq<bool>)
    requires Closer(c, st, fl, st1, fl1) && Closer(c, st1, fl1, st2, fl2)
    ensures Closer(c, st, fl, st2, fl2)
  {
  }

  // ------------------------------------------------------------ the code

  // Pushes the stacks at the end of block b to its successors.
  method PushToSuccessors(c: DeferCfg, b: nat, value: StackSet, states: array<StackSet>, flags: array<bool>)
    requires ValidDeferCfg(c) && b < |c.instrs| == states.Length == flags.Length && Sorted(value)
    requires forall k :: 0 <= k < states.Length ==> Sorted(states[k])
    modifies states, flags
    ensures forall k :: 0 <= k < states.Length ==> Sorted(states[k])
    ensures forall k :: 0 <= k < states.Length ==>
              Elems(states[k]) == (if k in c.succs[b] then old(Elems(states[k])) + Elems(value) else old(Elems(states[k])))
    ensures forall k :: 0 <= k < states.Length ==> (flags[k] <==> old(flags[k]) || states[k] != old(states[k]))
  {
    var succs := c.succs[b];
    for i := 0 to |succs|
      invariant forall k :: 0 <= k < states.Length ==> Sorted(states[k])
      invariant forall k :: 0 <= k < states.Length ==>
        Elems(states[k]) == (if k in succs[..i] then old(Elems(states[k])) + Elems(value) else old(Elems(states[k])))
      invariant forall k :: 0 <= k < states.Length ==> (flags[k] <==> old(flags[k]) || states[k] != old(states[k]))
    {
      var succ := succs[i];
      assert succ in c.succs[b];
      assert succs[..i + 1] == succs[..i] + [succ];
      ghost var before := states[succ];
      var union, sameAsA := StackSetUnion(states[succ], value);
      UnionAgain(old(states[succ]), before, union, value);
      states[succ] := union;
      flags[succ] := flags[succ] || !sameAsA;
    }
    assert succs[..|succs|] == succs;
  }

  // A set that has grown once does not shrink back.
  lemma UnionAgain(first: StackSet, before: StackSet, after: StackSet, value: StackSet)
    requires Elems(before) == Elems(first) || Elems(before) == Elems(first) + Elems(value)
    requires Sorted(first) && Sorted(before) && Sorted(after) && Elems(after) == Elems(before) + Elems(value)
    ensures after == first ==> before == first
    ensures Elems(after) == Elems(first) + Elems(value)
  {
    if after == first {
      SortedUnique(before, first);
    }
  }

  // Takes block b, which is flagged, and visits it.
  method VisitBlock(c: DeferCfg, b: nat, states: array<StackSet>, flags: array<bool>, sets0: RunDeferSets, rep0: bool)
    returns (sets: RunDeferSets, rep: bool)
    requires states.Length == flags.Length && b < flags.Length && flags[b]
    requires Analysing(c, states[..], flags[..], sets0, rep0)
    modifies states, flags
    ensures Analysing(c, states[..], flags[..], sets, rep)
    ensures Closer(c, old(states[..]), old(flags[..]), states[..], flags[..])
  {
    ghost var st, fl := states[..], flags[..];
    flags[b] := false;
    assert st[b] == states[b] && fl[b];
    var value;
    value, sets, rep := ProcessInstrs(c, b, states[b], sets0, rep0);
    forall k | 0 <= k < states.Length ensures Sorted(states[k]) {
      assert states[k] == st[k];
    }
    ghost var mid := flags[..];
    PushToSuccessors(c, b, value, states, flags);
    ghost var st', fl' := states[..], flags[..];
    forall k | 0 <= k < |st| ensures Pushed(c, st, st', fl, fl', b, RunSet(c, b, |c.instrs[b]|, Elems(st[b])), k) {
      assert mid[k] <==> k != b && fl[k];
      assert st'[k] == states[k] && fl'[k] == flags[k];
    }
    VisitKeeps(c, st, st', fl, fl', sets0, sets, rep0, rep, b);
    VisitIsCloser(c, st, st', fl, fl', sets0, sets, rep0, rep, b);
  }

  // One pass over all blocks, in the given order.
  method Pass(c: DeferCfg, order: seq<nat>, states: array<StackSet>, flags: array<bool>, sets0: RunDeferSets, rep0: bool)
    returns (sets: RunDeferSets, rep: bool, iterationChanged: bool)
    requires states.Length == flags.Length && Analysing(c, states[..], flags[..], sets0, rep0)
    requires forall b :: b in order <==> b < |c.instrs|
    modifies states, flags
    ensures Analysing(c, states[..], flags[..], sets, rep)
    ensures iterationChanged ==> Closer(c, old(states[..]), old(flags[..]), states[..], flags[..])
    ensures !iterationChanged ==> forall b :: 0 <= b < flags.Length ==> !flags[b]
  {
    sets, rep, iterationChanged := sets0, rep0, false;
    for k := 0 to |order|
      invariant Analysing(c, states[..], flags[..], sets, rep)
      invariant iterationChanged ==> Closer(c, old(states[..]), old(flags[..]), states[..], flags[..])
      invariant !iterationChanged ==> states[..] == old(states[..]) && flags[..] == old(flags[..])
      invariant !iterationChanged ==> forall b :: b in order[..k] ==> b < flags.Length && !flags[b]
    {
      var i := order[k];
      assert i in order;
      assert order[..k + 1] == order[..k] + [i];
      if flags[i] {
        ghost var st, fl := states[..], flags[..];
        sets, rep := VisitBlock(c, i, states, flags, sets, rep);
        if iterationChanged {
          CloserTrans(c, old(states[..]), old(flags[..]), st, fl, states[..], flags[..]);
        }
        iterationChanged := true;
      }
    }
    assert order[..|order|] == order;
  }

  // The analysis of one function: order lists its blocks.
  method AnalyzeFunction(c: DeferCfg, order: seq<nat>) returns (deferStackBounded: bool, runDeferSets: RunDeferSets)
    requires ValidDeferCfg(c) && forall b :: b in order <==> b < |c.instrs|
    ensures Exact(c, deferStackBounded, runDeferSets)
  {
    assert 0 in order <==> 0 < |c.instrs|;
    if |order| == 0 {
      return true, map[];
    }
    assert order[0] in order;
    var n := |c.instrs|;
    var states := new StackSet[n](_ => []);
    var flags := new bool[n](_ => false);
    states[0] := [[]];
    flags[0] := true;
    runDeferSets := map[];
    var anyRepeated := false;
    Starts(c, states[..], flags[..]);
    while true
      invariant Analysing(c, states[..], flags[..], runDeferSets, anyRepeated)
      decreases Missing(c, states[..]), Flagged(flags[..])
    {
      var iterationChanged;
      runDeferSets, anyRepeated, iterationChanged := Pass(c, order, states, flags, runDeferSets, anyRepeated);
      if !iterationChanged {
        break;
      }
    }
    QuietIsExact(c, states[..], flags[..], runDeferSets, anyRepeated);
    return !anyRepeated, runDeferSets;
  }

  // The entry block has the empty stack and is the only one flagged.
  lemma Starts(c: DeferCfg, st: seq<StackSet>, fl: seq<bool>)
    requires ValidDeferCfg(c) && |st| == |fl| == |c.instrs| > 0
    requires st[0] == [[]] && fl[0] && forall i :: 0 < i < |st| ==> st[i] == [] && !fl[i]
    ensures Analysing(c, st, fl, map[], false)
  {
    assert IsPath(c, [0]) && Entry(c, [0]) == [];
    assert EntryReaches(c, 0, []);
  }
}
