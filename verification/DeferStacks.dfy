// Sets of defer stacks as strictly sorted sequences: comparison, union, and
// the effect of one instruction.
module DeferStacks {

  // The position of an instruction: its block and its index there.
  datatype InstrIndices = InstrIndices(block: nat, ins: nat)

  type Stack = seq<InstrIndices>
  type StackSet = seq<Stack>

  datatype Instr = Defer | RunDefers | Other

  function CompareEntries(a: InstrIndices, b: InstrIndices): int {
    if a.block < b.block then -1
    else if a.block > b.block then 1
    else if a.ins < b.ins then -1
    else if a.ins > b.ins then 1
    else 0
  }

  // The order of stacks: by the first entry that differs, then by length.
  function Compare(a: Stack, b: Stack): int {
    if a == [] then (if b == [] then 0 else -1)
    else if b == [] then 1
    else
      var c := CompareEntries(a[0], b[0]);
      if c != 0 then c else Compare(a[1..], b[1..])
  }

  ghost predicate Less(a: Stack, b: Stack) {
    Compare(a, b) < 0
  }

  lemma {:induction false} CompareZero(a: Stack, b: Stack)
    ensures Compare(a, b) == 0 <==> a == b
  {
    if a != [] && b != [] {
      CompareZero(a[1..], b[1..]);
      assert a == [a[0]] + a[1..] && b == [b[0]] + b[1..];
    }
  }

  lemma {:induction false} CompareFlips(a: Stack, b: Stack)
    ensures Compare(b, a) == -Compare(a, b)
  {
    if a != [] && b != [] {
      CompareFlips(a[1..], b[1..]);
    }
  }

  lemma {:induction false} LessTrans(a: Stack, b: Stack, c: Stack)
    requires Less(a, b) && Less(b, c)
    ensures Less(a, c)
  {
    if a != [] && b != [] && c != [] && CompareEntries(a[0], b[0]) == 0 && CompareEntries(b[0], c[0]) == 0 {
      LessTrans(a[1..], b[1..], c[1..]);
    }
  }

  // Exactly one of less, equal and greater holds.
  lemma Trichotomy(a: Stack, b: Stack)
    ensures (Less(a, b) && a != b && !Less(b, a)) || (!Less(a, b) && a == b && !Less(b, a)) || (!Less(a, b) && a != b && Less(b, a))
  {
    CompareZero(a, b);
    CompareFlips(a, b);
  }

  // a comes before b where they first differ: a ends there, or its entry is of an
  // earlier block, or of the same block and earlier in it.
  ghost predicate BeforeAt(a: Stack, b: Stack, k: nat) {
    && k <= |a| && k < |b| && a[..k] == b[..k]
    && (k < |a| ==> a[k].block < b[k].block || (a[k].block == b[k].block && a[k].ins < b[k].ins))
  }

  lemma {:induction false} LessIsLexicographic(a: Stack, b: Stack)
    ensures Less(a, b) <==> exists k: nat :: BeforeAt(a, b, k)
  {
    if a == [] || b == [] {
      assert b != [] ==> BeforeAt([], b, 0);
    } else if CompareEntries(a[0], b[0]) != 0 {
      if CompareEntries(a[0], b[0]) < 0 {
        assert BeforeAt(a, b, 0);
      }
      forall k: nat | BeforeAt(a, b, k) ensures CompareEntries(a[0], b[0]) < 0 {
        SameStart(a, b, k);
      }
    } else {
      LessIsLexicographic(a[1..], b[1..]);
      BeforeInRest(a, b);
    }
  }

  lemma SameStart(a: Stack, b: Stack, k: nat)
    requires k <= |a| && k <= |b| && a[..k] == b[..k]
    ensures k > 0 ==> a[0] == b[0]
  {
    assert k > 0 ==> a[0] == a[..k][0] && b[0] == b[..k][0];
  }

  lemma BeforeInRest(a: Stack, b: Stack)
    requires a != [] && b != [] && a[0] == b[0]
    ensures (exists k: nat :: BeforeAt(a, b, k)) <==> exists k: nat :: BeforeAt(a[1..], b[1..], k)
  {
    forall k: nat | BeforeAt(a, b, k) ensures k > 0 && BeforeAt(a[1..], b[1..], k - 1) {
      assert a[1..][..k - 1] == a[..k][1..] && b[1..][..k - 1] == b[..k][1..];
    }
    forall k: nat | BeforeAt(a[1..], b[1..], k) ensures BeforeAt(a, b, k + 1) {
      assert a[..k + 1] == [a[0]] + a[1..][..k] && b[..k + 1] == [b[0]] + b[1..][..k];
    }
  }

  method StackCompare(a: Stack, b: Stack) returns (c: int)
    ensures c == Compare(a, b)
  {
    var i := 0;
    while i < |a| && i < |b|
      invariant 0 <= i <= |a| && i <= |b|
      invariant Compare(a, b) == Compare(a[i..], b[i..])
    {
      var aIns, bIns := a[i], b[i];
      if aIns.block < bIns.block { return -1; }
      if aIns.block > bIns.block { return 1; }
      if aIns.ins < bIns.ins { return -1; }
      if aIns.ins > bIns.ins { return 1; }
      assert a[i..][1..] == a[i + 1..] && b[i..][1..] == b[i + 1..];
      i := i + 1;
    }
    if |a| < |b| { return -1; }
    if |a| > |b| { return 1; }
    return 0;
  }

  // Strictly increasing, so without duplicates.
  ghost predicate Sorted(s: StackSet) {
    forall i, j {:trigger Less(s[i], s[j])} :: 0 <= i < j < |s| ==> Less(s[i], s[j])
  }

  ghost function Elems(s: StackSet): set<Stack> {
    set x | x in s
  }

  // A set has one sorted form only.
  lemma {:induction false} SortedUnique(s: StackSet, t: StackSet)
    requires Sorted(s) && Sorted(t) && Elems(s) == Elems(t)
    ensures s == t
  {
    EmptyElems(s);
    EmptyElems(t);
    if s != [] && t != [] {
      assert s[0] in Elems(t) && t[0] in Elems(s);
      Trichotomy(s[0], t[0]);
      var i :| 0 <= i < |t| && t[i] == s[0];
      var j :| 0 <= j < |s| && s[j] == t[0];
      assert s[0] == t[0];
      TailElems(s);
      TailElems(t);
      SortedUnique(s[1..], t[1..]);
      assert s == [s[0]] + s[1..] && t == [t[0]] + t[1..];
    }
  }

  lemma EmptyElems(s: StackSet)
    ensures s == [] <==> Elems(s) == {}
  {
    if s != [] {
      assert s[0] in Elems(s);
    }
  }

  lemma TailElems(s: StackSet)
    requires Sorted(s) && s != []
    ensures Sorted(s[1..]) && Elems(s[1..]) == Elems(s) - {s[0]}
  {
    assert s == [s[0]] + s[1..];
    forall i | 1 <= i < |s| ensures s[i] != s[0] {
      assert Less(s[0], s[i]);
      CompareZero(s[0], s[i]);
    }
  }

  // Appending a stack above all others.
  lemma SortedSnoc(s: StackSet, x: Stack)
    requires Sorted(s) && forall y :: y in s ==> Less(y, x)
    ensures Sorted(s + [x]) && Elems(s + [x]) == Elems(s) + {x}
  {
    var t := s + [x];
    forall i, j | 0 <= i < j < |t| ensures Less(t[i], t[j]) {
      if j == |s| {
        assert t[i] in s;
      }
    }
  }

  lemma SnocElems(s: seq<Stack>, x: Stack)
    ensures Elems(s + [x]) == Elems(s) + {x}
  {
  }

  // a[i] is above everything in the merged prefix r.
  ghost predicate AllBelow(r: StackSet, a: StackSet, i: nat) {
    i < |a| ==> forall x :: x in r ==> Less(x, a[i])
  }

  ghost predicate Merging(a: StackSet, b: StackSet, i: nat, j: nat, r: StackSet, same: bool) {
    && i <= |a| && j <= |b|
    && Sorted(r) && Elems(r) == Elems(a[..i]) + Elems(b[..j])
    && AllBelow(r, a, i) && AllBelow(r, b, j)
    && (same <==> Elems(b[..j]) <= Elems(a))
  }

  lemma TakeElems(a: StackSet, i: nat)
    requires i < |a|
    ensures Elems(a[..i + 1]) == Elems(a[..i]) + {a[i]}
  {
    assert a[..i + 1] == a[..i] + [a[i]];
  }

  // Taking the smaller head keeps everything merged so far below both heads.
  lemma BelowNext(r: StackSet, x: Stack, a: StackSet, i: nat)
    requires Sorted(a) && i < |a| && (x == a[i] || Less(x, a[i])) && (forall y :: y in r ==> Less(y, x))
    ensures x == a[i] ==> AllBelow(r + [x], a, i + 1)
    ensures Less(x, a[i]) ==> AllBelow(r + [x], a, i)
  {
    forall y | y in r + [x] ensures x == a[i] && i + 1 < |a| ==> Less(y, a[i + 1]) {
      if y in r && x == a[i] && i + 1 < |a| {
        LessTrans(y, x, a[i + 1]);
      }
    }
    forall y | y in r + [x] ensures Less(x, a[i]) ==> Less(y, a[i]) {
      if y in r && Less(x, a[i]) {
        LessTrans(y, x, a[i]);
      }
    }
  }

  // A stack of b below the head of a, and above all that has been merged, is
  // not in a.
  lemma NotInOther(a: StackSet, i: nat, r: StackSet, x: Stack)
    requires Sorted(a) && i <= |a| && (forall y :: y in a[..i] ==> Less(y, x))
    requires i < |a| ==> Less(x, a[i])
    ensures x !in a
  {
    forall k | 0 <= k < |a| ensures a[k] != x {
      if k < i {
        assert a[..i][k] == a[k];
        Trichotomy(a[k], x);
      } else {
        if k > i { LessTrans(x, a[i], a[k]); }
        Trichotomy(x, a[k]);
      }
    }
  }

  lemma MergeTakesA(a: StackSet, b: StackSet, i: nat, j: nat, r: StackSet, same: bool)
    requires Sorted(a) && Sorted(b) && Merging(a, b, i, j, r, same) && i < |a| && (j < |b| ==> Less(a[i], b[j]))
    ensures Merging(a, b, i + 1, j, r + [a[i]], same)
  {
    SortedSnoc(r, a[i]);
    TakeElems(a, i);
    BelowNext(r, a[i], a, i);
    if j < |b| { BelowNext(r, a[i], b, j); }
  }

  lemma MergeTakesB(a: StackSet, b: StackSet, i: nat, j: nat, r: StackSet, same: bool)
    requires Sorted(a) && Sorted(b) && Merging(a, b, i, j, r, same) && j < |b| && (i < |a| ==> Less(b[j], a[i]))
    ensures Merging(a, b, i, j + 1, r + [b[j]], false)
  {
    SortedSnoc(r, b[j]);
    TakeElems(b, j);
    BelowNext(r, b[j], b, j);
    if i < |a| { BelowNext(r, b[j], a, i); }
    assert forall y :: y in a[..i] ==> y in Elems(r);
    NotInOther(a, i, r, b[j]);
    assert b[j] in Elems(b[..j + 1]) && b[j] !in Elems(a);
  }

  lemma MergeTakesBoth(a: StackSet, b: StackSet, i: nat, j: nat, r: StackSet, same: bool)
    requires Sorted(a) && Sorted(b) && Merging(a, b, i, j, r, same) && i < |a| && j < |b| && a[i] == b[j]
    ensures Merging(a, b, i + 1, j + 1, r + [a[i]], same)
  {
    SortedSnoc(r, a[i]);
    TakeElems(a, i);
    TakeElems(b, j);
    BelowNext(r, a[i], a, i);
    BelowNext(r, a[i], b, j);
    assert a[i] in Elems(a);
  }

  // The union of two sets, and whether it is the first set.
  method StackSetUnion(a: StackSet, b: StackSet) returns (r: StackSet, sameAsA: bool)
    requires Sorted(a) && Sorted(b)
    ensures Sorted(r) && Elems(r) == Elems(a) + Elems(b)
    ensures sameAsA <==> Elems(b) <= Elems(a)
    ensures sameAsA <==> r == a
  {
    r, sameAsA := [], true;
    var aIndex, bIndex := 0, 0;
    while aIndex < |a| && bIndex < |b|
      invariant 0 <= aIndex && 0 <= bIndex && Merging(a, b, aIndex, bIndex, r, sameAsA)
      decreases |a| - aIndex + |b| - bIndex
    {
      var aStack, bStack := a[aIndex], b[bIndex];
      var cmp := StackCompare(aStack, bStack);
      CompareFlips(aStack, bStack);
      CompareZero(aStack, bStack);
      if cmp < 0 {
        MergeTakesA(a, b, aIndex, bIndex, r, sameAsA);
        r := r + [aStack];
        aIndex := aIndex + 1;
      } else if cmp > 0 {
        MergeTakesB(a, b, aIndex, bIndex, r, sameAsA);
        r := r + [bStack];
        bIndex := bIndex + 1;
        sameAsA := false;
      } else {
        MergeTakesBoth(a, b, aIndex, bIndex, r, sameAsA);
        r := r + [aStack];
        aIndex := aIndex + 1;
        bIndex := bIndex + 1;
      }
    }
    if aIndex < |a| {
      r := AppendRestOfA(a, b, aIndex, r, sameAsA);
    } else {
      r, sameAsA := AppendRestOfB(a, b, bIndex, r, sameAsA);
    }
    if sameAsA {
      assert Elems(r) == Elems(a);
      SortedUnique(r, a);
    }
  }

  // What is left of a when b is used up.
  method AppendRestOfA(a: StackSet, b: StackSet, i: nat, r0: StackSet, ghost same: bool) returns (r: StackSet)
    requires Sorted(a) && Sorted(b) && Merging(a, b, i, |b|, r0, same)
    ensures Sorted(r) && Elems(r) == Elems(a) + Elems(b) && (same <==> Elems(b) <= Elems(a))
  {
    r := r0;
    var aIndex := i;
    while aIndex < |a|
      invariant 0 <= aIndex && Merging(a, b, aIndex, |b|, r, same)
    {
      MergeTakesA(a, b, aIndex, |b|, r, same);
      r := r + [a[aIndex]];
      aIndex := aIndex + 1;
    }
    assert a[..aIndex] == a && b[..|b|] == b;
  }

  // What is left of b when a is used up: all of it is new.
  method AppendRestOfB(a: StackSet, b: StackSet, j: nat, r0: StackSet, same0: bool) returns (r: StackSet, same: bool)
    requires Sorted(a) && Sorted(b) && Merging(a, b, |a|, j, r0, same0)
    ensures Sorted(r) && Elems(r) == Elems(a) + Elems(b) && (same <==> Elems(b) <= Elems(a))
  {
    r, same := r0, same0;
    var bIndex := j;
    while bIndex < |b|
      invariant 0 <= bIndex && Merging(a, b, |a|, bIndex, r, same)
    {
      MergeTakesB(a, b, |a|, bIndex, r, same);
      r := r + [b[bIndex]];
      bIndex := bIndex + 1;
      same := false;
    }
    assert a[..|a|] == a && b[..bIndex] == b;
  }

  // ------------------------------------------------------------ one instruction

  // The stack after an instruction: a defer that is there already is not pushed
  // again.
  function StepStack(s: Stack, at: InstrIndices, instr: Instr): Stack {
    match instr
    case Defer => if at in s then s else s + [at]
    case RunDefers => []
    case Other => s
  }

  // The stacks after an instruction; a RunDefers leaves the empty stack even if
  // no stack reaches it.
  ghost function StepSet(x: set<Stack>, at: InstrIndices, instr: Instr): set<Stack> {
    if instr == RunDefers then {[]} else set s | s in x :: StepStack(s, at, instr)
  }

  // A defer that a stack has already changes nothing, any other is pushed.
  lemma StepSetHolds(x: set<Stack>, at: InstrIndices, instr: Instr, s: Stack)
    ensures s in StepSet(x, at, instr) <==>
      match instr
      case Defer => (s in x && at in s) || (s != [] && s[|s| - 1] == at && s[..|s| - 1] in x && at !in s[..|s| - 1])
      case RunDefers => s == []
      case Other => s in x
  {
    match instr
    case Defer => DeferHolds(x, at, s);
    case RunDefers =>
    case Other =>
      if s in x {
        assert s == StepStack(s, at, instr);
      }
  }

  lemma DeferHolds(x: set<Stack>, at: InstrIndices, s: Stack)
    ensures s in StepSet(x, at, Defer) <==>
      (s in x && at in s) || (s != [] && s[|s| - 1] == at && s[..|s| - 1] in x && at !in s[..|s| - 1])
  {
    if s in StepSet(x, at, Defer) {
      var t :| t in x && s == StepStack(t, at, Defer);
      if at !in t {
        assert s[..|s| - 1] == t;
      }
    }
    if s in x && at in s {
      assert s == StepStack(s, at, Defer);
    }
    if s != [] && s[|s| - 1] == at && s[..|s| - 1] in x && at !in s[..|s| - 1] {
      assert s == s[..|s| - 1] + [at] == StepStack(s[..|s| - 1], at, Defer);
    }
  }

  method StackPushed(s: Stack, block: nat, ins: nat) returns (t: Stack)
    ensures t == s + [InstrIndices(block, ins)]
  {
    t := s + [InstrIndices(block, ins)];
  }

  ghost predicate WeaklySorted(s: seq<Stack>) {
    forall i, j :: 0 <= i < j < |s| ==> s[i] == s[j] || Less(s[i], s[j])
  }

  // Putting x between what is at most x and what is larger keeps the order.
  lemma InsertedIsSorted(a: seq<Stack>, x: Stack, b: seq<Stack>)
    requires WeaklySorted(a + b)
    requires forall k :: 0 <= k < |a| ==> a[k] == x || Less(a[k], x)
    requires forall k :: 0 <= k < |b| ==> Less(x, b[k])
    ensures WeaklySorted(a + [x] + b)
  {
    var s, t := a + b, a + [x] + b;
    forall k, l | 0 <= k < l < |t| ensures t[k] == t[l] || Less(t[k], t[l]) {
      var k', l' := if k < |a| then k else k - 1, if l < |a| then l else l - 1;
      if k != |a| && l != |a| {
        assert t[k] == s[k'] && t[l] == s[l'];
      } else if k == |a| {
        assert t[l] == b[l - |a| - 1];
      } else {
        assert t[k] == a[k];
      }
    }
  }

  // Inserts x before the first larger element.
  method Insert(s: seq<Stack>, x: Stack) returns (t: seq<Stack>)
    requires WeaklySorted(s)
    ensures WeaklySorted(t) && multiset(t) == multiset(s) + multiset{x}
  {
    var i := 0;
    while i < |s|
      invariant 0 <= i <= |s|
      invariant forall k :: 0 <= k < i ==> s[k] == x || Less(s[k], x)
    {
      var cmp := StackCompare(s[i], x);
      CompareFlips(s[i], x);
      CompareZero(s[i], x);
      if cmp > 0 {
        break;
      }
      i := i + 1;
    }
    t := s[..i] + [x] + s[i..];
    assert s == s[..i] + s[i..];
    forall k | i <= k < |s| ensures Less(x, s[k]) {
      if k > i && s[i] != s[k] {
        LessTrans(x, s[i], s[k]);
      }
    }
    InsertedIsSorted(s[..i], x, s[i..]);
  }

  // Stands for the sort of the standard library: a sorted permutation.
  method SortStacks(s: seq<Stack>) returns (t: seq<Stack>)
    ensures WeaklySorted(t) && multiset(t) == multiset(s)
  {
    t := [];
    for i := 0 to |s|
      invariant WeaklySorted(t) && multiset(t) == multiset(s[..i])
    {
      t := Insert(t, s[i]);
      assert s[..i + 1] == s[..i] + [s[i]];
    }
    assert s[..|s|] == s;
  }

  lemma PermutationElems(s: seq<Stack>, t: seq<Stack>)
    requires multiset(s) == multiset(t)
    ensures Elems(s) == Elems(t)
  {
    forall x ensures x in s <==> x in t {
      assert x in s <==> x in multiset(s);
      assert x in t <==> x in multiset(t);
    }
  }

  // Drops each stack equal to the one before it.
  method RemoveDuplicates(s: seq<Stack>) returns (final: StackSet)
    requires WeaklySorted(s)
    ensures Sorted(final) && Elems(final) == Elems(s)
  {
    if |s| == 0 {
      return [];
    }
    final := [s[0]];
    for i := 1 to |s|
      invariant |final| > 0 && final[|final| - 1] == s[i - 1]
      invariant Sorted(final) && Elems(final) == Elems(s[..i])
    {
      var cmp := StackCompare(final[|final| - 1], s[i]);
      CompareZero(s[i - 1], s[i]);
      TakeElems(s, i);
      if cmp != 0 {
        forall y | y in final ensures Less(y, s[i]) {
          var k :| 0 <= k < |final| && final[k] == y;
          if k < |final| - 1 {
            LessTrans(y, s[i - 1], s[i]);
          }
        }
        SortedSnoc(final, s[i]);
        final := final + [s[i]];
      } else {
        assert s[i] in Elems(final);
      }
    }
    assert s[..|s|] == s;
  }

  // The stacks right after an instruction, and whether it was a defer that some
  // stack had already.
  method DataflowTransfer(block: nat, ins: nat, instr: Instr, initial: StackSet) returns (final: StackSet, repeated: bool)
    requires Sorted(initial)
    ensures Sorted(final) && Elems(final) == StepSet(Elems(initial), InstrIndices(block, ins), instr)
    ensures repeated <==> instr == Defer && exists s :: s in initial && InstrIndices(block, ins) in s
  {
    ghost var at := InstrIndices(block, ins);
    match instr
    case Defer =>
      var newStacks: seq<Stack> := [];
      repeated := false;
      for i := 0 to |initial|
        invariant repeated <==> exists s :: s in initial[..i] && at in s
        invariant Elems(newStacks) == set s | s in Elems(initial[..i]) :: StepStack(s, at, Defer)
      {
        var stack := initial[i];
        var thisStackRepeated := false;
        for k := 0 to |stack|
          invariant thisStackRepeated <==> at in stack[..k]
        {
          if stack[k].block == block && stack[k].ins == ins {
            thisStackRepeated := true;
          }
        }
        assert stack[..|stack|] == stack;
        TakeElems(initial, i);
        assert initial[..i + 1] == initial[..i] + [stack];
        SnocElems(newStacks, StepStack(stack, at, Defer));
        if thisStackRepeated {
          repeated := true;
          newStacks := newStacks + [stack];
        } else {
          var pushed := StackPushed(stack, block, ins);
          newStacks := newStacks + [pushed];
        }
      }
      assert initial[..|initial|] == initial;
      var sorted := SortStacks(newStacks);
      PermutationElems(sorted, newStacks);
      final := RemoveDuplicates(sorted);
    case RunDefers =>
      return [[]], false;
    case Other =>
      final, repeated := initial, false;
  }
}
