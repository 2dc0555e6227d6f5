// What the defer analysis is about: the stacks of deferred calls along the
// paths of a control flow graph.
module DeferPaths {
  import opened DistinctSeqs
  import opened DeferStacks

  // Blocks are numbered from 0, the entry block.
  datatype DeferCfg = DeferCfg(instrs: seq<seq<Instr>>, succs: seq<seq<nat>>)

  ghost predicate ValidDeferCfg(c: DeferCfg) {
    |c.instrs| == |c.succs| && forall b, k :: 0 <= b < |c.succs| && k in c.succs[b] ==> k < |c.succs|
  }

  // A path of blocks from the entry.
  ghost predicate IsPath(c: DeferCfg, p: seq<nat>) {
    && p != [] && p[0] == 0
    && (forall i :: 0 <= i < |p| ==> p[i] < |c.instrs| && p[i] < |c.succs|)
    && (forall i, j :: 0 <= i && j == i + 1 && j < |p| ==> p[j] in c.succs[p[i]])
  }

  function Last(p: seq<nat>): nat
    requires p != []
  {
    p[|p| - 1]
  }

  // ------------------------------------------------------------ the real stack

  // At run time every defer is pushed, and RunDefers runs and clears them all.
  function RealStep(s: Stack, at: InstrIndices, instr: Instr): Stack {
    match instr
    case Defer => s + [at]
    case RunDefers => []
    case Other => s
  }

  // The stack after the first j instructions of block b.
  function RealRun(c: DeferCfg, b: nat, j: nat, s: Stack): Stack
    requires b < |c.instrs| && j <= |c.instrs[b]|
  {
    if j == 0 then s else RealStep(RealRun(c, b, j - 1, s), InstrIndices(b, j - 1), c.instrs[b][j - 1])
  }

  // The stack on entry to the last block of a path.
  ghost function RealEntry(c: DeferCfg, p: seq<nat>): Stack
    requires IsPath(c, p)
  {
    if |p| == 1 then []
    else
      var q := p[..|p| - 1];
      RealRun(c, Last(q), |c.instrs[Last(q)]|, RealEntry(c, q))
  }

  // The stack at instruction j of the last block of a path.
  ghost function RealAt(c: DeferCfg, p: seq<nat>, j: nat): Stack
    requires IsPath(c, p) && j <= |c.instrs[Last(p)]|
  {
    RealRun(c, Last(p), j, RealEntry(c, p))
  }

  // No path executes a defer twice without running the defers in between.
  ghost predicate Bounded(c: DeferCfg) {
    forall p, j: nat :: IsPath(c, p) && j <= |c.instrs[Last(p)]| ==> NoDup(RealAt(c, p, j))
  }

  // Each entry at its first occurrence only.
  function FirstOccurrences(s: Stack): Stack {
    if s == [] then []
    else
      var init, x := FirstOccurrences(s[..|s| - 1]), s[|s| - 1];
      if x in init then init else init + [x]
  }

  // The stacks that paths bring to instruction at, deduplicated.
  ghost predicate StackReaches(c: DeferCfg, at: InstrIndices, s: Stack)
    requires at.block < |c.instrs| && at.ins <= |c.instrs[at.block]|
  {
    exists p :: IsPath(c, p) && Last(p) == at.block && s == FirstOccurrences(RealAt(c, p, at.ins))
  }

  ghost predicate BlockReached(c: DeferCfg, b: nat) {
    exists p :: IsPath(c, p) && Last(p) == b
  }

  // ------------------------------------------------------------ the analysed stack

  function Run(c: DeferCfg, b: nat, j: nat, s: Stack): Stack
    requires b < |c.instrs| && j <= |c.instrs[b]|
  {
    if j == 0 then s else StepStack(Run(c, b, j - 1, s), InstrIndices(b, j - 1), c.instrs[b][j - 1])
  }

  ghost function RunSet(c: DeferCfg, b: nat, j: nat, x: set<Stack>): set<Stack>
    requires b < |c.instrs| && j <= |c.instrs[b]|
  {
    set s | s in x :: Run(c, b, j, s)
  }

  ghost function Entry(c: DeferCfg, p: seq<nat>): Stack
    requires IsPath(c, p)
  {
    if |p| == 1 then []
    else
      var q := p[..|p| - 1];
      Run(c, Last(q), |c.instrs[Last(q)]|, Entry(c, q))
  }

  // The defer at j of block b would be pushed a second time.
  ghost predicate RepeatsAt(c: DeferCfg, b: nat, j: nat, s: Stack)
    requires b < |c.instrs|
  {
    j < |c.instrs[b]| && c.instrs[b][j] == Defer && InstrIndices(b, j) in Run(c, b, j, s)
  }

  // ------------------------------------------------------------ connection

  lemma {:induction false} FirstOccurrencesElems(s: Stack)
    ensures forall x :: x in FirstOccurrences(s) <==> x in s
    ensures NoDup(FirstOccurrences(s))
    ensures NoDup(s) <==> FirstOccurrences(s) == s
  {
    if s != [] {
      var init, x := s[..|s| - 1], s[|s| - 1];
      assert s == init + [x];
      FirstOccurrencesElems(init);
      NoDupSnoc(init, x);
      NoDupSnoc(FirstOccurrences(init), x);
      FirstOccurrencesShort(init);
    }
  }

  lemma {:induction false} FirstOccurrencesShort(s: Stack)
    ensures |FirstOccurrences(s)| <= |s|
  {
    if s != [] {
      FirstOccurrencesShort(s[..|s| - 1]);
    }
  }

  lemma FirstOccurrencesSnoc(s: Stack, x: InstrIndices)
    ensures FirstOccurrences(s + [x]) ==
      if x in FirstOccurrences(s) then FirstOccurrences(s) else FirstOccurrences(s) + [x]
  {
    assert (s + [x])[..|s|] == s;
  }

  // ------------------------------------------------------------ what is pending

  // No RunDefers among the instructions of b from i up to j.
  ghost predicate NoneRuns(c: DeferCfg, b: nat, i: nat, j: nat)
    requires b < |c.instrs| && j <= |c.instrs[b]|
  {
    forall k :: i <= k < j ==> c.instrs[b][k] != RunDefers
  }

  // A defer is pushed on top, a RunDefers clears the stack, and nothing else
  // touches it.
  lemma RealRunStep(c: DeferCfg, b: nat, j: nat, s: Stack)
    requires b < |c.instrs| && j < |c.instrs[b]|
    ensures RealRun(c, b, 0, s) == s
    ensures c.instrs[b][j] == Defer ==> RealRun(c, b, j + 1, s) == RealRun(c, b, j, s) + [InstrIndices(b, j)]
    ensures c.instrs[b][j] == RunDefers ==> RealRun(c, b, j + 1, s) == []
    ensures c.instrs[b][j] == Other ==> RealRun(c, b, j + 1, s) == RealRun(c, b, j, s)
  {
  }

  lemma {:induction false} RealRunHolds(c: DeferCfg, b: nat, j: nat, s: Stack, at: InstrIndices)
    requires b < |c.instrs| && j <= |c.instrs[b]|
    ensures at in RealRun(c, b, j, s) <==>
      || (at in s && NoneRuns(c, b, 0, j))
      || (at.block == b && at.ins < j && c.instrs[b][at.ins] == Defer && NoneRuns(c, b, at.ins, j))
  {
    if j > 0 {
      RealRunHolds(c, b, j - 1, s, at);
      RealRunStep(c, b, j - 1, s);
    }
  }

  // How far block i of the path has been executed when its last one is at j.
  ghost function Upto(c: DeferCfg, p: seq<nat>, j: nat, i: nat): nat
    requires IsPath(c, p) && j <= |c.instrs[Last(p)]| && i < |p|
  {
    if i == |p| - 1 then j else |c.instrs[p[i]]|
  }

  // Block i of the path executed the defer at position k, and no RunDefers has
  // been executed since.
  ghost predicate PushedAt(c: DeferCfg, p: seq<nat>, j: nat, i: nat, k: nat)
    requires IsPath(c, p) && j <= |c.instrs[Last(p)]|
  {
    && i < |p| && k < Upto(c, p, j, i) && c.instrs[p[i]][k] == Defer
    && NoneRuns(c, p[i], k, Upto(c, p, j, i))
    && forall m :: i < m < |p| ==> NoneRuns(c, p[m], 0, Upto(c, p, j, m))
  }

  // The pending defers are exactly those that the path has executed since the
  // last RunDefers.
  lemma {:induction false} PendingExactly(c: DeferCfg, p: seq<nat>, j: nat, at: InstrIndices)
    requires IsPath(c, p) && j <= |c.instrs[Last(p)]|
    ensures at in RealAt(c, p, j) <==> exists i: nat :: PushedAt(c, p, j, i, at.ins) && p[i] == at.block
    decreases |p|
  {
    var n, b := |p| - 1, Last(p);
    RealRunHolds(c, b, j, RealEntry(c, p), at);
    if at.block == b && at.ins < j && c.instrs[b][at.ins] == Defer && NoneRuns(c, b, at.ins, j) {
      assert PushedAt(c, p, j, n, at.ins);
    }
    if n > 0 {
      var q := p[..n];
      var full := |c.instrs[Last(q)]|;
      PendingExactly(c, q, full, at);
      assert RealEntry(c, p) == RealAt(c, q, full);
      forall i: nat | i < n ensures PushedAt(c, p, j, i, at.ins) <==> PushedAt(c, q, full, i, at.ins) && NoneRuns(c, b, 0, j) {
        PushedEarlier(c, p, q, j, full, i, at.ins);
      }
    }
  }

  lemma PushedEarlier(c: DeferCfg, p: seq<nat>, q: seq<nat>, j: nat, full: nat, i: nat, k: nat)
    requires IsPath(c, p) && |p| > 1 && q == p[..|p| - 1] && j <= |c.instrs[Last(p)]|
    requires IsPath(c, q) && full == |c.instrs[Last(q)]| && i < |q|
    ensures PushedAt(c, p, j, i, k) <==> PushedAt(c, q, full, i, k) && NoneRuns(c, Last(p), 0, j)
  {
    assert forall m: nat :: m < |q| ==> q[m] == p[m] && Upto(c, p, j, m) == Upto(c, q, full, m);
    assert p[|p| - 1] == Last(p) && Upto(c, p, j, |p| - 1) == j;
  }

  // ------------------------------------------------------------ the analysed stack

  lemma {:induction false} RunIsFirstOccurrences(c: DeferCfg, b: nat, j: nat, s: Stack)
    requires b < |c.instrs| && j <= |c.instrs[b]|
    ensures Run(c, b, j, FirstOccurrences(s)) == FirstOccurrences(RealRun(c, b, j, s))
  {
    if j > 0 {
      RunIsFirstOccurrences(c, b, j - 1, s);
      FirstOccurrencesSnoc(RealRun(c, b, j - 1, s), InstrIndices(b, j - 1));
    }
  }

  // The analysed stack of a path is its real stack, deduplicated.
  lemma {:induction false} EntryIsFirstOccurrences(c: DeferCfg, p: seq<nat>)
    requires IsPath(c, p)
    ensures Entry(c, p) == FirstOccurrences(RealEntry(c, p))
  {
    if |p| > 1 {
      var q := p[..|p| - 1];
      EntryIsFirstOccurrences(c, q);
      RunIsFirstOccurrences(c, Last(q), |c.instrs[Last(q)]|, RealEntry(c, q));
    }
  }

  lemma RunAtIsFirstOccurrences(c: DeferCfg, p: seq<nat>, j: nat)
    requires IsPath(c, p) && j <= |c.instrs[Last(p)]|
    ensures Run(c, Last(p), j, Entry(c, p)) == FirstOccurrences(RealAt(c, p, j))
  {
    EntryIsFirstOccurrences(c, p);
    RunIsFirstOccurrences(c, Last(p), j, RealEntry(c, p));
  }

  // ------------------------------------------------------------ repetition

  // A push that makes the real stack repeat itself is a push of what is on the
  // stack of first occurrences.
  lemma FirstDuplicate(c: DeferCfg, p: seq<nat>, k: nat)
    requires IsPath(c, p) && k < |c.instrs[Last(p)]| && NoDup(RealAt(c, p, k)) && !NoDup(RealAt(c, p, k + 1))
    ensures RepeatsAt(c, Last(p), k, Entry(c, p))
  {
    NoDupSnoc(RealAt(c, p, k), InstrIndices(Last(p), k));
    RunAtIsFirstOccurrences(c, p, k);
    FirstOccurrencesElems(RealAt(c, p, k));
  }

  // A duplicate on the real stack was pushed at some point of the same path.
  lemma {:induction false} DuplicateWasPushed(c: DeferCfg, p: seq<nat>, j: nat) returns (q: seq<nat>, k: nat)
    requires IsPath(c, p) && j <= |c.instrs[Last(p)]| && !NoDup(RealAt(c, p, j))
    ensures IsPath(c, q) && RepeatsAt(c, Last(q), k, Entry(c, q))
    decreases |p|, j
  {
    if j > 0 {
      var b, s := Last(p), RealAt(c, p, j - 1);
      NoDupSnoc(s, InstrIndices(b, j - 1));
      if NoDup(s) {
        q, k := p, j - 1;
        FirstDuplicate(c, p, k);
      } else {
        q, k := DuplicateWasPushed(c, p, j - 1);
      }
    } else {
      var r := p[..|p| - 1];
      q, k := DuplicateWasPushed(c, r, |c.instrs[Last(r)]|);
    }
  }

  lemma RepeatIsDuplicate(c: DeferCfg, p: seq<nat>, j: nat)
    requires IsPath(c, p) && RepeatsAt(c, Last(p), j, Entry(c, p))
    ensures !NoDup(RealAt(c, p, j + 1))
  {
    RunAtIsFirstOccurrences(c, p, j);
    FirstOccurrencesElems(RealAt(c, p, j));
    NoDupSnoc(RealAt(c, p, j), InstrIndices(Last(p), j));
  }

  ghost predicate NoRepeat(c: DeferCfg) {
    forall p, j: nat {:trigger RepeatsAt(c, Last(p), j, Entry(c, p))} :: IsPath(c, p) ==> !RepeatsAt(c, Last(p), j, Entry(c, p))
  }

  // The defer stack is bounded exactly when no defer is pushed a second time.
  lemma BoundedIffNoRepeat(c: DeferCfg)
    ensures Bounded(c) <==> NoRepeat(c)
  {
    if Bounded(c) {
      forall p, j: nat | IsPath(c, p) ensures !RepeatsAt(c, Last(p), j, Entry(c, p)) {
        if RepeatsAt(c, Last(p), j, Entry(c, p)) {
          RepeatIsDuplicate(c, p, j);
        }
      }
    }
    if NoRepeat(c) {
      forall p, j: nat | IsPath(c, p) && j <= |c.instrs[Last(p)]| ensures NoDup(RealAt(c, p, j)) {
        if !NoDup(RealAt(c, p, j)) {
          var q, k := DuplicateWasPushed(c, p, j);
        }
      }
    }
  }

  // ------------------------------------------------------------ finitely many stacks

  // The positions of all instructions.
  ghost function Positions(c: DeferCfg): set<InstrIndices> {
    set b, j | 0 <= b < |c.instrs| && 0 <= j < |c.instrs[b]| :: InstrIndices(b, j)
  }

  lemma {:induction false} RunStays(c: DeferCfg, b: nat, j: nat, s: Stack)
    requires b < |c.instrs| && j <= |c.instrs[b]| && NoDup(s) && Over(s, Positions(c))
    ensures NoDup(Run(c, b, j, s)) && Over(Run(c, b, j, s), Positions(c))
  {
    if j > 0 {
      RunStays(c, b, j - 1, s);
      NoDupSnoc(Run(c, b, j - 1, s), InstrIndices(b, j - 1));
      assert InstrIndices(b, j - 1) in Positions(c);
    }
  }

  lemma {:induction false} EntryStays(c: DeferCfg, p: seq<nat>)
    requires IsPath(c, p)
    ensures NoDup(Entry(c, p)) && Over(Entry(c, p), Positions(c))
  {
    if |p| > 1 {
      var q := p[..|p| - 1];
      EntryStays(c, q);
      RunStays(c, Last(q), |c.instrs[Last(q)]|, Entry(c, q));
    }
  }

  lemma PathSnoc(c: DeferCfg, p: seq<nat>, k: nat)
    requires ValidDeferCfg(c) && IsPath(c, p) && k in c.succs[Last(p)]
    ensures IsPath(c, p + [k]) && Entry(c, p + [k]) == Run(c, Last(p), |c.instrs[Last(p)]|, Entry(c, p))
  {
    assert (p + [k])[..|p|] == p;
  }
}
