// Sequences without repetition over a finite set: there are finitely many.
// This is what makes the searches over stacks and traces terminate.
module DistinctSeqs {

  ghost predicate NoDup<T>(s: seq<T>) {
    forall i, j :: 0 <= i < j < |s| ==> s[i] != s[j]
  }

  ghost predicate Over<T>(s: seq<T>, d: set<T>) {
    forall x :: x in s ==> x in d
  }

  // All sequences over d of length at most n.
  ghost function SeqsUpTo<T>(d: set<T>, n: nat): set<seq<T>> {
    if n == 0 then {[]}
    else SeqsUpTo(d, n - 1) + set s, x | s in SeqsUpTo(d, n - 1) && x in d :: s + [x]
  }

  lemma {:induction false} InSeqsUpTo<T>(s: seq<T>, d: set<T>, n: nat)
    requires Over(s, d) && |s| <= n
    ensures s in SeqsUpTo(d, n)
  {
    if n > 0 {
      if |s| == n {
        var init, x := s[..|s| - 1], s[|s| - 1];
        assert s == init + [x];
        InSeqsUpTo(init, d, n - 1);
      } else {
        InSeqsUpTo(s, d, n - 1);
      }
    }
  }

  lemma {:induction false} NoDupIsShort<T>(s: seq<T>, d: set<T>)
    requires NoDup(s) && Over(s, d)
    ensures |s| <= |d|
  {
    if s != [] {
      var init, x := s[..|s| - 1], s[|s| - 1];
      assert x in s;
      forall y | y in init ensures y in d - {x} {
        assert y in s;
      }
      NoDupIsShort(init, d - {x});
    }
  }

  // The finite set that holds every sequence over d without repetition.
  ghost function Universe<T>(d: set<T>): set<seq<T>> {
    SeqsUpTo(d, |d|)
  }

  lemma InUniverse<T>(s: seq<T>, d: set<T>)
    requires NoDup(s) && Over(s, d)
    ensures s in Universe(d)
  {
    NoDupIsShort(s, d);
    InSeqsUpTo(s, d, |d|);
  }

  lemma NoDupSnoc<T>(s: seq<T>, x: T)
    ensures NoDup(s + [x]) <==> NoDup(s) && x !in s
  {
    var t := s + [x];
    if NoDup(t) {
      forall i, j | 0 <= i < j < |s| ensures s[i] != s[j] {
        assert t[i] != t[j];
      }
      forall i | 0 <= i < |s| ensures s[i] != x {
        assert t[i] != t[|s|];
      }
    }
  }

  ghost function Items<T>(s: seq<T>): set<T> {
    set x | x in s
  }

  lemma ItemsAppend<T>(a: seq<T>, b: seq<T>)
    ensures Items(a + b) == Items(a) + Items(b)
  {
    assert forall x :: x in a + b <==> x in a || x in b;
  }

  lemma NoDupAppend<T>(a: seq<T>, b: seq<T>)
    requires NoDup(a) && NoDup(b) && Items(a) !! Items(b)
    ensures NoDup(a + b)
  {
    forall i, j | 0 <= i < j < |a + b| ensures (a + b)[i] != (a + b)[j] {
      if i < |a| <= j {
        assert a[i] in Items(a) && b[j - |a|] in Items(b);
      }
    }
  }

  lemma NoDupCons<T>(x: T, s: seq<T>)
    requires NoDup([x] + s)
    ensures NoDup(s) && x !in Items(s) && Items([x] + s) == {x} + Items(s)
  {
    var q := [x] + s;
    forall i, j | 0 <= i < j < |s| ensures s[i] != s[j] {
      assert q[i + 1] != q[j + 1];
    }
    forall i | 0 <= i < |s| ensures s[i] != x {
      assert q[0] != q[i + 1];
    }
    ItemsAppend([x], s);
  }

  lemma {:induction false} SubsetSize<T>(a: set<T>, b: set<T>)
    requires a <= b
    ensures |a| <= |b|
  {
    if a != {} {
      var x :| x in a;
      SubsetSize(a - {x}, b - {x});
    }
  }

  ghost function Member<T>(s: set<T>): (x: T)
    requires s != {}
    ensures x in s
  {
    var x :| x in s; x
  }

  method Pick<T(==)>(s: set<T>) returns (x: T)
    requires s != {}
    ensures x in s
  {
    x :| x in s;
  }
}
