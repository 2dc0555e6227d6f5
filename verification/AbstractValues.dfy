// Abstract values: sets of marks, kept per access path or not, and their merge.
module AbstractValues {
  import opened DistinctSeqs

  type Value = int
  type Mark = int
  type Path = string

  // The empty access path.
  const ROOT: Path := ""

  // The marks at each access path.
  type View = map<Path, set<Mark>>

  function At(a: View, q: Path): set<Mark> {
    if q in a then a[q] else {}
  }

  // ------------------------------------------------------------ views and their order

  ghost function Union(a: View, b: View): View {
    map q | q in a.Keys + b.Keys :: At(a, q) + At(b, q)
  }

  ghost predicate LessEq(a: View, b: View) {
    a.Keys <= b.Keys && forall q :: q in a ==> a[q] <= b[q]
  }

  // Union is the least upper bound.
  lemma UnionIsLub(a: View, b: View, c: View)
    ensures LessEq(a, Union(a, b)) && LessEq(b, Union(a, b))
    ensures LessEq(a, c) && LessEq(b, c) ==> LessEq(Union(a, b), c)
    ensures Union(a, b) == b <==> LessEq(a, b)
  {
    var u := Union(a, b);
    if LessEq(a, b) {
      forall q | q in b ensures u[q] == b[q] {
        assert At(a, q) <= b[q];
      }
      assert u.Keys == b.Keys;
    }
  }

  // All marks, with the paths forgotten.
  ghost function Flat(a: View): set<Mark> {
    set q, m | q in a && m in a[q] :: m
  }

  ghost function AtRoot(b: View, marks: set<Mark>): View {
    if marks == {} then b else b[ROOT := At(b, ROOT) + marks]
  }

  lemma AtRootChanges(b: View, marks: set<Mark>)
    ensures AtRoot(b, marks) != b <==> if ROOT in b then !(marks <= b[ROOT]) else marks != {}
  {
    var r := AtRoot(b, marks);
    if ROOT in b && marks <= b[ROOT] {
      assert b[ROOT] + marks == b[ROOT];
      assert r == b;
    } else if ROOT in b {
      assert r[ROOT] != b[ROOT];
    } else if marks != {} {
      assert ROOT in r;
    }
  }

  // What merging a into b leaves in b; aS and bS tell whether they keep paths.
  ghost function Merged(aS: bool, a: View, bS: bool, b: View): View {
    if aS == bS then Union(a, b)
    else if aS then map[ROOT := At(b, ROOT) + Flat(a)]
    else AtRoot(b, At(a, ROOT))
  }

  // The mark m of a arrives at q: at its own path if both values keep paths or
  // neither does, and else at the root.
  ghost predicate Arrives(aS: bool, a: View, bS: bool, q: Path, m: Mark) {
    if aS == bS then q in a && m in a[q]
    else q == ROOT && exists p :: p in a && m in a[p]
  }

  // Merging keeps all marks of b where they are, and brings in those of a and
  // no other.
  lemma MergedMarks(aS: bool, a: View, bS: bool, b: View)
    requires (!aS ==> a.Keys == {ROOT}) && (!bS ==> b.Keys == {ROOT})
    ensures var r := Merged(aS, a, bS, b);
      && (forall q, m {:trigger m in r[q]} :: (q in r && m in r[q]) <==> (q in b && m in b[q]) || Arrives(aS, a, bS, q, m))
      && b.Keys <= r.Keys && (!bS ==> r.Keys == {ROOT})
  {
    var r := Merged(aS, a, bS, b);
    forall q, m ensures (q in r && m in r[q]) <==> (q in b && m in b[q]) || Arrives(aS, a, bS, q, m) {
      if aS != bS {
        MarkArrives(aS, a, bS, b, q, m);
      }
    }
  }

  lemma MarkArrives(aS: bool, a: View, bS: bool, b: View, q: Path, m: Mark)
    requires aS != bS && (!aS ==> a.Keys == {ROOT}) && (!bS ==> b.Keys == {ROOT})
    ensures var r := Merged(aS, a, bS, b); (q in r && m in r[q]) <==> (q in b && m in b[q]) || Arrives(aS, a, bS, q, m)
  {
    if aS {
      assert m in Flat(a) <==> exists p :: p in a && m in a[p];
    } else {
      assert m in At(a, ROOT) <==> exists p :: p in a && m in a[p];
    }
  }

  // The one change that is not reported: a single mark is merged into a value
  // that keeps paths and has nothing at the root yet.
  ghost predicate Unreported(aS: bool, a: View, bS: bool, b: View) {
    !aS && bS && ROOT !in b && |At(a, ROOT)| == 1
  }

  // Merging reports a change exactly when there is one, unless it is that one.
  ghost predicate ReportedRight(aS: bool, a: View, bS: bool, b: View, modified: bool) {
    modified <==> Merged(aS, a, bS, b) != b && !Unreported(aS, a, bS, b)
  }

  // That one is a change.
  lemma UnreportedIsChange(aS: bool, a: View, bS: bool, b: View)
    requires Unreported(aS, a, bS, b)
    ensures Merged(aS, a, bS, b) != b
  {
    assert At(a, ROOT) != {};
    assert ROOT in Merged(aS, a, bS, b);
  }

  // ------------------------------------------------------------ the code

  // One set of marks: a map of its own in the source.  It belongs to one path of
  // one value.
  class MarkSet {
    ghost const owner: AbstractValue
    ghost const path: Path
    var marks: set<Mark>

    constructor (ghost owner: AbstractValue, ghost path: Path, marks: set<Mark>)
      ensures this.owner == owner && this.path == path && this.marks == marks
    {
      this.owner, this.path, this.marks := owner, path, marks;
    }

    // Adds the marks of another set, one by one.
    method AddMarks(from: MarkSet) returns (modified: bool)
      modifies this
      ensures marks == old(marks) + old(from.marks) && (modified <==> !(old(from.marks) <= old(marks)))
    {
      modified := false;
      var todo := from.marks;
      ghost var all := from.marks;
      while todo != {}
        invariant todo <= all && marks == old(marks) + (all - todo)
        invariant modified <==> !(all - todo <= old(marks))
      {
        var m := Pick(todo);
        if m !in marks {
          marks, modified := marks + {m}, true;
        }
        todo := todo - {m};
      }
      assert all - {} == all;
    }
  }

  class AbstractValue {
    const value: Value
    const isPathSensitive: bool
    var marks: MarkSet?
    var accessMarks: map<Path, MarkSet>
    ghost var sets: set<MarkSet>  // the sets made for this value
    ghost var view: View  // the marks they hold at each path

    // Every set belongs to this value and to its path, so none is shared.
    ghost predicate Valid()
      reads this, sets
    {
      && (forall s :: s in sets ==> s.owner == this)
      && if isPathSensitive then
           marks == null && view.Keys == accessMarks.Keys
           && forall q :: q in accessMarks ==> accessMarks[q] in sets && Holds(q, accessMarks[q])
         else
           marks != null && accessMarks == map[] && view.Keys == {ROOT} && marks in sets && Holds(ROOT, marks)
    }

    ghost predicate Holds(q: Path, s: MarkSet)
      reads this`view, s
    {
      q in view && s.marks == view[q] && s.path == q
    }

    // The marks at each path; a value that does not keep paths has them at the root.
    function PathMappings(): (v: View)
      requires Valid()
      reads this, sets
      ensures v == view
    {
      if isPathSensitive then map q | q in accessMarks :: accessMarks[q].marks else map[ROOT := marks.marks]
    }

    constructor (v: Value, pathSensitive: bool)
      ensures Valid() && fresh(sets)
      ensures value == v && isPathSensitive == pathSensitive
      ensures view == if pathSensitive then map[] else map[ROOT := {}]
    {
      value, isPathSensitive, marks, accessMarks, sets, view := v, pathSensitive, null, map[], {}, map[];
      new;
      if !isPathSensitive {
        marks := new MarkSet(this, ROOT, {});
        sets, view := {marks}, map[ROOT := {}];
      }
    }

    // Gives a path that has none a set of its own.
    method NewMarks(path: Path, initial: set<Mark>)
      requires Valid() && isPathSensitive && path !in accessMarks
      modifies this
      ensures Valid() && fresh(sets - old(sets)) && view == old(view)[path := initial]
    {
      var s := new MarkSet(this, path, initial);
      accessMarks, sets, view := accessMarks[path := s], sets + {s}, view[path := initial];
    }

    // The set at a path the value has.
    function SetAt(path: Path): (s: MarkSet)
      requires Valid() && path in view
      reads this, sets
      ensures s in sets && Holds(path, s)
    {
      if isPathSensitive then accessMarks[path] else marks
    }

    method PutMark(path: Path, mark: Mark)
      requires Valid() && path in view
      modifies this`view, sets
      ensures Valid() && view == old(view)[path := old(view)[path] + {mark}]
    {
      var s := SetAt(path);
      s.marks := s.marks + {mark};
      view := view[path := s.marks];
    }

    // Adds the marks of a set of this or another value at a path.
    method PutMarks(path: Path, from: MarkSet) returns (modified: bool)
      requires Valid() && path in view
      modifies this`view, sets
      ensures Valid() && view == old(view)[path := old(view)[path] + old(from.marks)]
      ensures modified <==> !(old(from.marks) <= old(view)[path])
    {
      var s := SetAt(path);
      modified := s.AddMarks(from);
      view := view[path := s.marks];
    }

    method Add(path: Path, mark: Mark)
      requires Valid()
      modifies this, sets
      ensures Valid() && fresh(sets - old(sets))
      ensures var q := if isPathSensitive then path else ROOT;
              view == old(view)[q := At(old(view), q) + {mark}]
    {
      if isPathSensitive {
        if path !in accessMarks {
          NewMarks(path, {});
        }
        PutMark(path, mark);
      } else {
        PutMark(ROOT, mark);
      }
    }
  }

  // Writing into a set of one value at one path changes no other value or path.
  lemma SetsApart(a: AbstractValue, b: AbstractValue, p: Path, q: Path)
    requires a.Valid() && b.Valid() && p in a.view && q in b.view
    ensures a.SetAt(p) == b.SetAt(q) <==> a == b && p == q
  {
  }

  lemma UnionStep(a: View, b: View, todo: set<Path>, path: Path)
    requires path in todo && todo <= a.Keys
    ensures var r := Union(a - todo, b);
            (path in r <==> path in b) && At(r, path) == At(b, path)
            && Union(a - (todo - {path}), b) == r[path := At(r, path) + a[path]]
  {
    var r, r' := Union(a - todo, b), Union(a - (todo - {path}), b);
    assert At(r, path) == At(b, path);
    forall q | q in r' ensures r'[q] == r[path := At(r, path) + a[path]][q] {
      if q == path {
        assert r'[q] == a[path] + At(b, path) == At(b, path) + a[path];
      } else {
        assert At(a - (todo - {path}), q) == At(a - todo, q);
      }
    }
  }

  lemma UnionOfNone(a: View, b: View)
    ensures Union(a - a.Keys, b) == b
  {
    forall q | q in b ensures At(a - a.Keys, q) + b[q] == b[q] {
    }
  }

  // Putting more marks at one path changes a value unless they were all there.
  lemma UpdateChanges(b: View, r: View, path: Path, marks: set<Mark>)
    requires (path in r <==> path in b) && At(r, path) == At(b, path)
    ensures var r' := r[path := At(r, path) + marks];
            if path in r && marks <= r[path] then r' == r else r' != b
  {
    var r' := r[path := At(r, path) + marks];
    if path in r && marks <= r[path] {
      assert r[path] + marks == r[path];
    } else if path in b {
      assert r'[path] != b[path];
    } else {
      assert path in r';
    }
  }

  lemma UnionSelf(a: View, todo: set<Path>)
    ensures Union(a - todo, a) == a
  {
    forall q | q in a ensures At(a - todo, q) + a[q] == a[q] {
    }
  }

  // b0 has taken in the paths of a that are not in todo.
  ghost predicate Uniting(a: View, b0: View, b: View, todo: set<Path>, modified: bool) {
    todo <= a.Keys && b == Union(a - todo, b0) && (modified <==> b != b0)
  }

  lemma UnitingStep(a: View, b0: View, b: View, todo: set<Path>, path: Path, modified: bool)
    requires Uniting(a, b0, b, todo, modified) && path in todo
    ensures var b' := b[path := At(b, path) + a[path]];
            Uniting(a, b0, b', todo - {path}, modified || !(path in b && a[path] <= b[path]))
    ensures a == b0 ==> b == a && b[path := At(b, path) + a[path]] == a
  {
    UnionStep(a, b0, todo, path);
    UpdateChanges(b0, b, path, a[path]);
    if a == b0 {
      UnionSelf(a, todo);
      UnionSelf(a, todo - {path});
    }
  }

  lemma UnitingDone(a: View, b0: View, b: View, modified: bool)
    requires Uniting(a, b0, b, {}, modified)
    ensures b == Union(a, b0)
  {
    assert a - {} == a;
  }

  // Merges one path of a into b.  A path b does not have gets a copy of the
  // marks, in a set of its own.
  method MergePath(a: AbstractValue, b: AbstractValue, path: Path) returns (grew: bool)
    requires a.Valid() && b.Valid() && a.isPathSensitive && b.isPathSensitive && path in a.accessMarks
    modifies b, b.sets
    ensures b.Valid() && fresh(b.sets - old(b.sets))
    ensures b.view == old(b.view)[path := At(old(b.view), path) + old(a.view)[path]]
    ensures grew <==> !(path in old(b.view) && old(a.view)[path] <= old(b.view)[path])
  {
    if path !in b.accessMarks {
      assert {} + a.view[path] == a.view[path];
      b.NewMarks(path, a.accessMarks[path].marks);
      grew := true;
    } else {
      grew := b.PutMarks(path, a.accessMarks[path]);
    }
  }

  // Two values share nothing, or they are one value.
  lemma ApartOrSame(a: AbstractValue, b: AbstractValue)
    requires a.Valid() && b.Valid()
    ensures a == b || a.sets !! b.sets
  {
    if s :| s in a.sets && s in b.sets {
      assert s.owner == a && s.owner == b;
    }
  }

  // Both keep paths.
  method MergePaths(a: AbstractValue, b: AbstractValue) returns (modified: bool)
    requires a.Valid() && b.Valid() && a.isPathSensitive && b.isPathSensitive
    modifies b, b.sets
    ensures b.Valid() && fresh(b.sets - old(b.sets))
    ensures b.view == Union(old(a.view), old(b.view)) && (modified <==> b.view != old(b.view))
  {
    ghost var av, bv := a.view, b.view;
    ghost var sets0 := b.sets;
    modified := false;
    var todo := a.accessMarks.Keys;
    UnionOfNone(av, bv);
    while todo != {}
      invariant a.Valid() && b.Valid() && a.view == av
      invariant forall s :: s in b.sets ==> s in sets0 || fresh(s)
      invariant Uniting(a.view, bv, b.view, todo, modified)
    {
      modified, todo := UniteNext(a, b, modified, bv, todo);
    }
    UnitingDone(av, bv, b.view, modified);
  }

  // One round of the loop, over some path.
  method UniteNext(a: AbstractValue, b: AbstractValue, modified0: bool, ghost bv: View, todo0: set<Path>)
    returns (modified: bool, todo: set<Path>)
    requires a.Valid() && b.Valid() && a.isPathSensitive && b.isPathSensitive && todo0 != {}
    requires Uniting(a.view, bv, b.view, todo0, modified0) && (a == b ==> a.view == bv)
    modifies b, b.sets
    ensures a.Valid() && b.Valid() && a.view == old(a.view)
    ensures forall s :: s in b.sets ==> s in old(b.sets) || fresh(s)
    ensures todo < todo0 && Uniting(a.view, bv, b.view, todo, modified)
  {
    var path :| path in todo0;
    modified := UnitePath(a, b, path, modified0, bv, todo0);
    todo := todo0 - {path};
  }

  method UnitePath(a: AbstractValue, b: AbstractValue, path: Path, modified0: bool, ghost bv: View, ghost todo: set<Path>)
    returns (modified: bool)
    requires a.Valid() && b.Valid() && a.isPathSensitive && b.isPathSensitive && path in todo
    requires Uniting(a.view, bv, b.view, todo, modified0) && (a == b ==> a.view == bv)
    modifies b, b.sets
    ensures a.Valid() && b.Valid() && a.view == old(a.view)
    ensures forall s :: s in b.sets ==> s in old(b.sets) || fresh(s)
    ensures Uniting(a.view, bv, b.view, todo - {path}, modified)
  {
    UnitingStep(a.view, bv, b.view, todo, path, modified0);
    ApartOrSame(a, b);
    var grew := MergePath(a, b, path);
    modified := modified0 || grew;
  }

  lemma FlatStep(a: View, todo: set<Path>, path: Path)
    requires path in todo && todo <= a.Keys
    ensures Flat(a - (todo - {path})) == Flat(a - todo) + a[path]
  {
    var x, y := a - (todo - {path}), a - todo;
    forall m | m in Flat(y) + a[path] ensures m in Flat(x) {
      if m in a[path] {
        assert path in x && m in x[path];
      } else {
        var q :| q in y && m in y[q];
        assert q in x && m in x[q];
      }
    }
    forall m | m in Flat(x) ensures m in Flat(y) + a[path] {
      var q :| q in x && m in x[q];
      assert q == path || (q in y && m in y[q]);
    }
  }

  // b0 has taken in, at its root, the marks of a at paths that are not in todo.
  ghost predicate Flattening(a: View, b0: View, b: View, todo: set<Path>, modified: bool) {
    && todo <= a.Keys && ROOT in b0 && b == b0[ROOT := b0[ROOT] + Flat(a - todo)]
    && (modified <==> b != b0)
  }

  lemma FlatteningStarts(a: View, b0: View)
    requires ROOT in b0
    ensures Flattening(a, b0, b0, a.Keys, false)
  {
    assert Flat(a - a.Keys) == {};
    assert b0[ROOT] + {} == b0[ROOT];
  }

  lemma FlatteningStep(a: View, b0: View, b: View, todo: set<Path>, path: Path, modified: bool)
    requires Flattening(a, b0, b, todo, modified) && path in todo
    ensures Flattening(a, b0, b[ROOT := b[ROOT] + a[path]], todo - {path}, modified || !(a[path] <= b[ROOT]))
  {
    FlatStep(a, todo, path);
    var more := Flat(a - todo);
    assert b0[ROOT] + (more + a[path]) == b0[ROOT] + more + a[path];
    var b' := b[ROOT := b[ROOT] + a[path]];
    assert b' == b0[ROOT := b0[ROOT] + (more + a[path])];
    if a[path] <= b[ROOT] {
      assert b[ROOT] + a[path] == b[ROOT];
      assert b' == b;
    } else {
      assert b'[ROOT] != b0[ROOT];
    }
  }

  // a keeps paths and b does not.
  method MergeFlat(a: AbstractValue, b: AbstractValue) returns (modified: bool)
    requires a.Valid() && b.Valid() && a.isPathSensitive && !b.isPathSensitive
    modifies b, b.sets
    ensures b.Valid() && b.sets == old(b.sets)
    ensures b.view == map[ROOT := old(b.view)[ROOT] + Flat(old(a.view))] && (modified <==> b.view != old(b.view))
  {
    ghost var av, bv := a.view, b.view;
    modified := false;
    var todo := a.accessMarks.Keys;
    FlatteningStarts(av, bv);
    while todo != {}
      invariant a.Valid() && b.Valid() && b.sets == old(b.sets) && a.view == av
      invariant Flattening(av, bv, b.view, todo, modified)
    {
      var path :| path in todo;
      FlatteningStep(av, bv, b.view, todo, path, modified);
      ApartOrSame(a, b);
      var grew := b.PutMarks(ROOT, a.accessMarks[path]);
      modified := modified || grew;
      todo := todo - {path};
    }
    assert av - {} == av;
  }

  lemma MoveOne<T>(all: set<T>, done: set<T>, todo: set<T>, m: T)
    requires done + todo == all && done !! todo && m in todo
    ensures done + {m} + (todo - {m}) == all && done + {m} !! todo - {m}
  {
  }

  // b0 has taken in the marks of done at its root, one by one; the first does
  // not count as a change if there was no root entry.
  ghost predicate Rooting(b0: View, b: View, done: set<Mark>, modified: bool) {
    && b == AtRoot(b0, done)
    && (modified <==> if ROOT in b0 then !(done <= b0[ROOT]) else |done| >= 2)
  }

  lemma RootingStep(b0: View, b: View, done: set<Mark>, m: Mark, modified: bool)
    requires Rooting(b0, b, done, modified) && m !in done
    ensures if ROOT !in b then Rooting(b0, b[ROOT := {m}], done + {m}, modified)
            else if m in b[ROOT] then Rooting(b0, b, done + {m}, modified)
            else Rooting(b0, b[ROOT := b[ROOT] + {m}], done + {m}, true)
  {
    RootGrows(At(b0, ROOT), done, m);
    if ROOT in b {
      RootingMore(b0, b, done, m, modified);
    } else {
      assert done == {};
    }
  }

  lemma RootingMore(b0: View, b: View, done: set<Mark>, m: Mark, modified: bool)
    requires Rooting(b0, b, done, modified) && m !in done && ROOT in b
    ensures if m in b[ROOT] then Rooting(b0, b, done + {m}, modified)
            else Rooting(b0, b[ROOT := b[ROOT] + {m}], done + {m}, true)
  {
    RootGrows(At(b0, ROOT), done, m);
    assert b[ROOT] == At(b0, ROOT) + done;
    assert ROOT in b0 || |done| >= 1;
  }

  lemma RootGrows(a: set<Mark>, done: set<Mark>, m: Mark)
    ensures a + (done + {m}) == a + done + {m}
    ensures m in a + done ==> a + (done + {m}) == a + done
    ensures a == {} && done == {} ==> a + (done + {m}) == {m}
  {
  }

  // One round of the loop below.
  method AddRootMark(b: AbstractValue, mark: Mark, modified0: bool, ghost b0: View, ghost done: set<Mark>) returns (modified: bool)
    requires b.Valid() && b.isPathSensitive && Rooting(b0, b.view, done, modified0) && mark !in done
    modifies b, b.sets
    ensures b.Valid() && fresh(b.sets - old(b.sets)) && Rooting(b0, b.view, done + {mark}, modified)
  {
    modified := modified0;
    RootingStep(b0, b.view, done, mark, modified);
    if ROOT !in b.accessMarks {
      b.NewMarks(ROOT, {mark});
    } else if mark !in b.accessMarks[ROOT].marks {
      modified := true;
      b.PutMark(ROOT, mark);
    }
  }

  // b keeps paths and a does not: its marks go to the root.
  method MergeAtRoot(a: AbstractValue, b: AbstractValue) returns (modified: bool)
    requires a.Valid() && b.Valid() && !a.isPathSensitive && b.isPathSensitive
    modifies b, b.sets
    ensures b.Valid() && fresh(b.sets - old(b.sets))
    ensures b.view == AtRoot(old(b.view), old(a.view)[ROOT])
    ensures modified <==> b.view != old(b.view) && !(ROOT !in old(b.view) && |old(a.view)[ROOT]| == 1)
  {
    ghost var marks, bv := a.view[ROOT], b.view;
    modified := false;
    var todo := a.marks.marks;
    ghost var done: set<Mark> := {};
    while todo != {}
      invariant b.Valid() && fresh(b.sets - old(b.sets))
      invariant done + todo == marks && done !! todo && Rooting(bv, b.view, done, modified)
    {
      var mark := Pick(todo);
      MoveOne(marks, done, todo, mark);
      modified := AddRootMark(b, mark, modified, bv, done);
      todo, done := todo - {mark}, done + {mark};
    }
    assert done == marks;
    AtRootChanges(bv, marks);
  }

  // Values that do not keep paths have all their marks at the root.
  lemma OnlyRoot(x: set<Mark>, y: set<Mark>)
    ensures Union(map[ROOT := x], map[ROOT := y]) == map[ROOT := y + x]
    ensures (map[ROOT := y + x] != map[ROOT := y]) <==> !(x <= y)
  {
    assert x + y == y + x;
    assert map[ROOT := y + x][ROOT] == y + x && map[ROOT := y][ROOT] == y;
    assert x <= y ==> y + x == y;
  }

  // Merges a into b.  a is not changed unless it is b, and shares no set with it
  // afterwards.
  method MergeInto(a: AbstractValue?, b: AbstractValue) returns (modified: bool)
    requires b.Valid() && (a != null ==> a.Valid())
    modifies b, b.sets
    ensures b.Valid() && fresh(b.sets - old(b.sets))
    ensures a != null && a != b ==> a.Valid() && a.view == old(a.view) && a.sets !! b.sets
    ensures a == null ==> !modified && b.view == old(b.view)
    ensures a != null ==>
              var a0, b0 := old(a.view), old(b.view);
              b.view == Merged(a.isPathSensitive, a0, b.isPathSensitive, b0)
              && ReportedRight(a.isPathSensitive, a0, b.isPathSensitive, b0, modified)
  {
    if a == null {
      return false;
    }
    ApartOrSame(a, b);
    modified := MergeValues(a, b);
    ApartOrSame(a, b);
  }

  // The four cases.
  method MergeValues(a: AbstractValue, b: AbstractValue) returns (modified: bool)
    requires a.Valid() && b.Valid()
    modifies b, b.sets
    ensures b.Valid() && fresh(b.sets - old(b.sets))
    ensures b.view == Merged(a.isPathSensitive, old(a.view), b.isPathSensitive, old(b.view))
    ensures ReportedRight(a.isPathSensitive, old(a.view), b.isPathSensitive, old(b.view), modified)
  {
    if a.isPathSensitive {
      if b.isPathSensitive {
        modified := MergePaths(a, b);
      } else {
        modified := MergeFlat(a, b);
      }
    } else {
      if b.isPathSensitive {
        modified := MergeAtRoot(a, b);
      } else {
        OnlyRoot(a.view[ROOT], b.view[ROOT]);
        OnlyRootView(a.view);
        OnlyRootView(b.view);
        modified := b.PutMarks(ROOT, a.marks);
      }
    }
  }

  lemma OnlyRootView(a: View)
    requires a.Keys == {ROOT}
    ensures a == map[ROOT := a[ROOT]]
  {
  }
}
