// The table of abstract values of a function: one row per instruction, one
// column per value, laid out row by row in one slice with 32-bit positions.
module FlowTable {
  import opened Options
  import opened DistinctSeqs
  import opened AbstractValues

  type Instr = int

  const WRAP: int := 0x1_0000_0000

  // ------------------------------------------------------------ positions

  function Position(numValues: nat, i: nat, v: nat): nat {
    (i * numValues + v) % WRAP
  }

  lemma RowsDoNotOverlap(n: nat, i: nat, j: nat, v: nat, w: nat)
    requires v < n && w < n
    ensures i < j ==> i * n + v < j * n
    ensures i * n + v == j * n + w <==> i == j && v == w
  {
    if i < j {
      assert (i + 1) * n <= j * n;
    } else if j < i {
      assert (j + 1) * n <= i * n;
    }
  }

  lemma PositionIsExact(n: nat, rows: nat, i: nat, v: nat)
    requires n * rows < WRAP && i < rows && v < n
    ensures Position(n, i, v) == i * n + v < n * rows
  {
    assert (i + 1) * n <= rows * n;
  }

  lemma PlaceOf(n: nat, rows: nat, i: nat, v: nat)
    requires n * rows < WRAP && i < rows && v < n
    ensures i * n % WRAP == i * n && i * n + v < n * rows && (i * n + v) % n == v
  {
    RowsInOrder(i + 1, rows, n);
    assert i * n + v < (i + 1) * n <= n * rows;
    SmallMod(i * n);
    DivMod(i * n + v, n);
    var q, r := (i * n + v) / n, (i * n + v) % n;
    RowsDoNotOverlap(n, q, i, r, v);
  }

  // If the table fits, no two places share a position.
  lemma PositionInjective(n: nat, rows: nat, i: nat, v: nat, j: nat, w: nat)
    requires n * rows < WRAP && i < rows && v < n && j < rows && w < n
    ensures Position(n, i, v) == Position(n, j, w) <==> i == j && v == w
  {
    PositionIsExact(n, rows, i, v);
    PositionIsExact(n, rows, j, w);
    RowsDoNotOverlap(n, i, j, v, w);
  }

  lemma DivMod(k: nat, n: nat)
    requires n > 0
    ensures k == (k / n) * n + k % n && k % n < n
  {
  }

  lemma RowsInOrder(i: nat, j: nat, n: nat)
    requires i <= j
    ensures i * n <= j * n
  {
  }

  lemma SmallMod(k: nat)
    requires k < WRAP
    ensures k % WRAP == k
  {
  }

  lemma SmallTable(n: nat, rows: nat)
    requires n * rows < WRAP
    ensures (n * rows) % WRAP == n * rows
  {
    RowsInOrder(0, rows, n);
    SmallMod(n * rows);
  }

  // The place whose offset is the wrapped length lies outside.
  lemma OutsideWhenWrapped(n: nat, rows: nat) returns (i: nat, v: nat)
    requires n * rows >= WRAP
    ensures i < rows && v < n && Position(n, i, v) == (n * rows) % WRAP
  {
    var len := (n * rows) % WRAP;
    DivMod(len, n);
    i, v := len / n, len % n;
    assert i * n <= len < WRAP <= rows * n;
    if rows <= i {
      RowsInOrder(rows, i, n);
    }
    SmallMod(len);
  }

  // Every place is inside a slice made with the product of the two sizes.
  ghost predicate AllInside(n: nat, rows: nat) {
    forall i, v :: 0 <= i < rows && 0 <= v < n ==> Position(n, i, v) < (n * rows) % WRAP
  }

  // That is so if and only if the product does not wrap around.
  lemma InsideUnlessWrapped(n: nat, rows: nat)
    requires n < WRAP && rows < WRAP
    ensures AllInside(n, rows) <==> n * rows < WRAP
  {
    if n * rows < WRAP {
      forall i, v | 0 <= i < rows && 0 <= v < n ensures Position(n, i, v) < (n * rows) % WRAP {
        PositionIsExact(n, rows, i, v);
      }
    } else {
      var i, v := OutsideWhenWrapped(n, rows);
    }
  }

  // ------------------------------------------------------------ numbering

  // The numbers 0, 1, ... up to n, each given once.
  ghost predicate IsNumbering<T(!new)>(ids: map<T, nat>, n: nat) {
    && (forall x :: x in ids ==> ids[x] < n)
    && (forall x, y :: x in ids && y in ids && ids[x] == ids[y] ==> x == y)
    && |ids| == n
  }

  ghost function Values<T>(xs: seq<Option<T>>): set<T> {
    set k | 0 <= k < |xs| && xs[k].Some? :: xs[k].value
  }

  lemma ValuesSnoc<T>(xs: seq<Option<T>>, x: Option<T>)
    ensures Values(xs + [x]) == Values(xs) + if x.Some? then {x.value} else {}
  {
    var ys := xs + [x];
    forall v | v in Values(xs) ensures v in Values(ys) {
      var k :| 0 <= k < |xs| && xs[k].Some? && xs[k].value == v;
      assert ys[k].value == v;
    }
    if x.Some? {
      assert ys[|xs|].value in Values(ys);
    }
  }

  // A value occurs at i for the first time.
  ghost predicate FirstAt<T>(xs: seq<Option<T>>, i: nat) {
    i < |xs| && xs[i].Some? && xs[i].value !in Values(xs[..i])
  }

  // How many different values there are before i.
  ghost function Before<T>(xs: seq<Option<T>>, i: nat): nat
    requires i <= |xs|
  {
    |Values(xs[..i])|
  }

  // Every value has the number of different values before it, modulo 2 to the 32.
  ghost predicate Numbered<T>(xs: seq<Option<T>>, ids: map<T, nat>, n: nat) {
    && ids.Keys == Values(xs) && n == |Values(xs)| % WRAP
    && forall i: nat :: FirstAt(xs, i) ==> xs[i].value in ids && ids[xs[i].value] == Before(xs, i) % WRAP
  }

  lemma FirstAtSnoc<T>(xs: seq<Option<T>>, x: Option<T>, i: nat)
    requires i <= |xs|
    ensures Before(xs + [x], i) == Before(xs, i)
    ensures i < |xs| ==> (FirstAt(xs + [x], i) <==> FirstAt(xs, i))
    ensures FirstAt(xs + [x], |xs|) <==> x.Some? && x.value !in Values(xs)
  {
    assert (xs + [x])[..i] == xs[..i];
    assert (xs + [x])[..|xs|] == xs;
  }

  // The next number to give, before and after one more value.
  lemma NextNumber<T>(xs: seq<Option<T>>, x: Option<T>)
    ensures var n, n' := |Values(xs)| % WRAP, |Values(xs + [x])| % WRAP;
      n' == if x.Some? && x.value !in Values(xs) then (n + 1) % WRAP else n
  {
    ValuesSnoc(xs, x);
    if x.Some? && x.value !in Values(xs) {
      assert |Values(xs + [x])| == |Values(xs)| + 1;
      WrapNext(|Values(xs)|);
    } else {
      assert Values(xs + [x]) == Values(xs);
    }
  }

  lemma WrapNext(k: nat)
    ensures (k % WRAP + 1) % WRAP == (k + 1) % WRAP
  {
  }

  lemma NumberedStep<T>(xs: seq<Option<T>>, x: Option<T>, ids: map<T, nat>, n: nat)
    requires Numbered(xs, ids, n)
    ensures if x.Some? && x.value !in ids then Numbered(xs + [x], ids[x.value := n], (n + 1) % WRAP)
            else Numbered(xs + [x], ids, n)
  {
    ValuesSnoc(xs, x);
    NextNumber(xs, x);
    var ids' := if x.Some? && x.value !in ids then ids[x.value := n] else ids;
    forall i: nat | FirstAt(xs + [x], i)
      ensures (xs + [x])[i].value in ids' && ids'[(xs + [x])[i].value] == Before(xs + [x], i) % WRAP
    {
      NumberedAt(xs, x, ids, n, i);
    }
  }

  lemma NumberedAt<T>(xs: seq<Option<T>>, x: Option<T>, ids: map<T, nat>, n: nat, i: nat)
    requires Numbered(xs, ids, n) && FirstAt(xs + [x], i)
    ensures var ys := xs + [x];
      if i < |xs| then ys[i].value in ids && ids[ys[i].value] == Before(ys, i) % WRAP
      else i == |xs| && x.Some? && x.value !in ids && n == Before(ys, i) % WRAP
  {
    FirstAtSnoc(xs, x, i);
    if i < |xs| {
      assert FirstAt(xs, i) && (xs + [x])[i] == xs[i];
    } else {
      assert xs[..|xs|] == xs;
    }
  }

  // A value has one first occurrence.
  lemma {:induction false} FirstOf<T>(xs: seq<Option<T>>, v: T) returns (i: nat)
    requires v in Values(xs)
    ensures FirstAt(xs, i) && xs[i].value == v
  {
    var init, last := xs[..|xs| - 1], xs[|xs| - 1];
    assert xs == init + [last];
    ValuesSnoc(init, last);
    if v in Values(init) {
      i := FirstOf(init, v);
      FirstAtSnoc(init, last, i);
    } else {
      i := |xs| - 1;
    }
  }

  // There are more different values before a later place.
  lemma BeforeGrows<T>(xs: seq<Option<T>>, i: nat, j: nat)
    requires FirstAt(xs, i) && i < j <= |xs|
    ensures Before(xs, i) < Before(xs, j)
  {
    var a, b := Values(xs[..i]), Values(xs[..j]);
    assert forall k :: 0 <= k < i ==> xs[..i][k] == xs[..j][k];
    assert xs[..j][i].value in b;
    SubsetSize(a + {xs[i].value}, b);
  }

  // With fewer than 2 to the 32 values the numbers are 0, 1, ..., each once.
  lemma NumberedOnce<T(!new)>(xs: seq<Option<T>>, ids: map<T, nat>, n: nat)
    requires Numbered(xs, ids, n) && |Values(xs)| < WRAP
    ensures IsNumbering(ids, n) && n == |Values(xs)|
  {
    SmallMod(|Values(xs)|);
    assert |ids.Keys| == |ids|;
    forall x | x in ids ensures ids[x] < n {
      var i := NumberOf(xs, ids, n, x);
    }
    forall x, y | x in ids && y in ids && ids[x] == ids[y] ensures x == y {
      var i := NumberOf(xs, ids, n, x);
      var j := NumberOf(xs, ids, n, y);
      if i < j {
        BeforeGrows(xs, i, j);
      } else if j < i {
        BeforeGrows(xs, j, i);
      }
    }
  }

  lemma NumberOf<T(!new)>(xs: seq<Option<T>>, ids: map<T, nat>, n: nat, x: T) returns (i: nat)
    requires Numbered(xs, ids, n) && |Values(xs)| < WRAP && x in ids
    ensures FirstAt(xs, i) && xs[i].value == x && ids[x] == Before(xs, i) < |Values(xs)|
  {
    i := FirstOf(xs, x);
    BeforeGrows(xs, i, |xs|);
    assert xs[..|xs|] == xs;
    SmallMod(Before(xs, i));
  }

  // Some number is too great.
  ghost predicate Overflows<T(!new)>(ids: map<T, nat>, n: nat) {
    exists v :: v in ids && ids[v] >= n
  }

  // With more, some value has the last number before the wrap.
  lemma {:induction false} CountHits<T>(xs: seq<Option<T>>, k: nat) returns (i: nat)
    requires k < |Values(xs)|
    ensures FirstAt(xs, i) && Before(xs, i) == k
  {
    var init, last := xs[..|xs| - 1], xs[|xs| - 1];
    assert xs == init + [last];
    ValuesSnoc(init, last);
    if k < |Values(init)| {
      i := CountHits(init, k);
      FirstAtSnoc(init, last, i);
    } else {
      i := |xs| - 1;
    }
  }

  lemma WrappedOverflows<T(!new)>(xs: seq<Option<T>>, ids: map<T, nat>, n: nat)
    requires Numbered(xs, ids, n) && |Values(xs)| >= WRAP
    ensures Overflows(ids, n)
  {
    var i := CountHits(xs, WRAP - 1);
    SmallMod(WRAP - 1);
    assert xs[i].value in ids && ids[xs[i].value] == WRAP - 1 >= n;
  }

  lemma NumberingUnlessWrapped<T(!new)>(xs: seq<Option<T>>, ids: map<T, nat>, n: nat)
    requires Numbered(xs, ids, n)
    ensures IsNumbering(ids, n) <==> |Values(xs)| < WRAP
  {
    if |Values(xs)| < WRAP {
      NumberedOnce(xs, ids, n);
    } else {
      WrappedOverflows(xs, ids, n);
    }
  }

  // Numbers what is not skipped, each value once, in order.
  method AssignIDs<T(==,!new)>(xs: seq<Option<T>>) returns (ids: map<T, nat>, n: nat)
    ensures Numbered(xs, ids, n)
  {
    ids, n := map[], 0;
    for i := 0 to |xs|
      invariant Numbered(xs[..i], ids, n)
    {
      assert xs[..i + 1] == xs[..i] + [xs[i]];
      NumberedStep(xs[..i], xs[i], ids, n);
      if xs[i].Some? && xs[i].value !in ids {
        ids := ids[xs[i].value := n];
        n := (n + 1) % WRAP;
      }
    }
    assert xs[..|xs|] == xs;
  }

  // ------------------------------------------------------------ the contents of the table

  type Cell = Option<View>

  function ViewOf(c: Cell): View {
    if c.Some? then c.value else map[]
  }

  // A cell as it is when first made.
  function Made(sensitive: bool, c: Cell): View {
    if c.Some? then c.value else if sensitive then map[] else map[ROOT := {}]
  }

  // The current cell after a previous one is merged into it.
  ghost function MergedCell(sensitive: bool, cur: Cell, prev: Cell): Cell {
    Some(Union(ViewOf(prev), Made(sensitive, cur)))
  }

  // A merged cell has the paths and marks of both cells and nothing else; one
  // that was missing starts without paths, or with the root if it keeps none.
  lemma MergedCellHolds(sensitive: bool, cur: Cell, prev: Cell)
    ensures var d := MergedCell(sensitive, cur, prev);
      && d.Some?
      && (forall q :: q in d.value <==>
            (cur.Some? && q in cur.value) || (prev.Some? && q in prev.value) || (cur.None? && !sensitive && q == ROOT))
      && (forall q, m {:trigger m in d.value[q]} :: (q in d.value && m in d.value[q]) <==>
            (cur.Some? && q in cur.value && m in cur.value[q]) || (prev.Some? && q in prev.value && m in prev.value[q]))
  {
  }

  ghost predicate CellLessEq(c: Cell, d: Cell) {
    c.Some? ==> d.Some? && LessEq(c.value, d.value)
  }

  ghost predicate TableLessEq(c: seq<Cell>, d: seq<Cell>) {
    |c| == |d| && forall p :: 0 <= p < |c| ==> CellLessEq(c[p], d[p])
  }

  lemma ViewAntisymmetric(a: View, b: View)
    requires LessEq(a, b) && LessEq(b, a)
    ensures a == b
  {
    forall q | q in a ensures a[q] == b[q] {
      assert a[q] <= b[q] && b[q] <= a[q];
    }
  }

  lemma TableAntisymmetric(c: seq<Cell>, d: seq<Cell>)
    requires TableLessEq(c, d) && TableLessEq(d, c)
    ensures c == d
  {
    forall p | 0 <= p < |c| ensures c[p] == d[p] {
      assert CellLessEq(c[p], d[p]) && CellLessEq(d[p], c[p]);
      if c[p].Some? {
        ViewAntisymmetric(c[p].value, d[p].value);
      }
    }
  }

  lemma ViewTransitive(a: View, b: View, c: View)
    requires LessEq(a, b) && LessEq(b, c)
    ensures LessEq(a, c)
  {
    forall q | q in a ensures a[q] <= c[q] {
      assert a[q] <= b[q] && b[q] <= c[q];
    }
  }

  lemma TableTransitive(c: seq<Cell>, d: seq<Cell>, e: seq<Cell>)
    requires TableLessEq(c, d) && TableLessEq(d, e)
    ensures TableLessEq(c, e)
  {
    forall p | 0 <= p < |c| ensures CellLessEq(c[p], e[p]) {
      assert CellLessEq(c[p], d[p]) && CellLessEq(d[p], e[p]);
      if c[p].Some? {
        ViewTransitive(c[p].value, d[p].value, e[p].value);
      }
    }
  }

  // A table that only ever grows differs from its start once it has changed.
  lemma GrownIsChanged(c: seq<Cell>, d: seq<Cell>, e: seq<Cell>)
    requires TableLessEq(c, d) && TableLessEq(d, e)
    ensures TableLessEq(c, e) && (e != c <==> d != c || e != d)
  {
    TableTransitive(c, d, e);
    if e == c {
      TableAntisymmetric(c, d);
    }
  }

  lemma UnionEmpty(a: View)
    ensures Union(map[], a) == a
  {
    forall q | q in a ensures At(map[], q) + a[q] == a[q] {
    }
  }

  lemma MergedGrows(c: seq<Cell>, at: nat, sensitive: bool, prev: Cell)
    requires at < |c|
    ensures TableLessEq(c, c[at := MergedCell(sensitive, c[at], prev)])
  {
    UnionIsLub(ViewOf(prev), Made(sensitive, c[at]), map[]);
    forall p | 0 <= p < |c| && c[p].Some? ensures LessEq(c[p].value, c[p].value) {
    }
  }

  // ------------------------------------------------------------ a row gathers its predecessors

  // In one column c, indexed by row: w is at least the cell of row ins as made and
  // the cells of the rows preds.
  ghost predicate Bounds(c: seq<Cell>, ins: nat, preds: set<nat>, sensitive: bool, w: View)
    requires ins < |c|
  {
    && LessEq(Made(sensitive, c[ins]), w)
    && forall p :: p in preds && p < |c| ==> LessEq(ViewOf(c[p]), w)
  }

  ghost predicate IsLeast(c: seq<Cell>, ins: nat, preds: set<nat>, sensitive: bool, w: View)
    requires ins < |c|
  {
    && Bounds(c, ins, preds, sensitive, w)
    && forall u :: Bounds(c, ins, preds, sensitive, u) ==> LessEq(w, u)
  }

  // From c to d the cell of row ins became the least upper bound over the rows
  // preds, if there are any; nothing else changed.
  ghost predicate Gathered(c: seq<Cell>, d: seq<Cell>, ins: nat, preds: set<nat>, sensitive: bool)
    requires ins < |c|
  {
    && |d| == |c| && (forall p :: 0 <= p < |c| && p != ins ==> d[p] == c[p])
    && if preds == {} then d[ins] == c[ins] else d[ins].Some? && IsLeast(c, ins, preds, sensitive, d[ins].value)
  }

  lemma GatheredAlready(c: seq<Cell>, d: seq<Cell>, ins: nat, preds: set<nat>, sensitive: bool)
    requires ins < |c| && Gathered(c, d, ins, preds, sensitive)
    ensures IsLeast(c, ins, preds, sensitive, Made(sensitive, d[ins]))
    ensures LessEq(ViewOf(d[ins]), Made(sensitive, d[ins])) && LessEq(ViewOf(c[ins]), Made(sensitive, d[ins]))
  {
    var w := Made(sensitive, d[ins]);
    assert LessEq(Made(sensitive, c[ins]), w);
    ViewTransitive(ViewOf(c[ins]), Made(sensitive, c[ins]), w);
  }

  lemma GatheredStep(c: seq<Cell>, d: seq<Cell>, ins: nat, preds: set<nat>, p: nat, sensitive: bool)
    requires ins < |c| && Gathered(c, d, ins, preds, sensitive) && p < |c|
    ensures Gathered(c, d[ins := MergedCell(sensitive, d[ins], d[p])], ins, preds + {p}, sensitive)
  {
    var base, prev := Made(sensitive, d[ins]), ViewOf(d[p]);
    var w := Union(prev, base);
    GatheredAlready(c, d, ins, preds, sensitive);
    UnionIsLub(prev, base, map[]);
    GatheredBounds(c, d, ins, preds, p, sensitive, w);
    forall u | Bounds(c, ins, preds + {p}, sensitive, u) ensures LessEq(w, u) {
      assert Bounds(c, ins, preds, sensitive, u);
      assert LessEq(base, u);
      assert p in preds + {p};
      ViewTransitive(ViewOf(d[ins]), base, u);
      UnionIsLub(prev, base, u);
    }
  }

  lemma GatheredBounds(c: seq<Cell>, d: seq<Cell>, ins: nat, preds: set<nat>, p: nat, sensitive: bool, w: View)
    requires ins < |c| && Gathered(c, d, ins, preds, sensitive) && p < |c|
    requires LessEq(Made(sensitive, d[ins]), w) && LessEq(ViewOf(d[p]), w)
    ensures Bounds(c, ins, preds + {p}, sensitive, w)
  {
    var base := Made(sensitive, d[ins]);
    GatheredAlready(c, d, ins, preds, sensitive);
    ViewTransitive(Made(sensitive, c[ins]), base, w);
    forall q | q in preds + {p} && q < |c| ensures LessEq(ViewOf(c[q]), w) {
      if q in preds {
        ViewTransitive(ViewOf(c[q]), base, w);
      } else if q == ins {
        ViewTransitive(ViewOf(c[q]), base, w);
      }
    }
  }

  // ------------------------------------------------------------ columns of the table

  // Column v of a table of n columns.
  ghost function Column(c: seq<Cell>, n: nat, rows: nat, v: nat): (r: seq<Cell>)
    requires |c| == n * rows && v < n
    ensures |r| == rows
  {
    seq(rows, i requires 0 <= i < rows => Entry(c, n, rows, i, v))
  }

  ghost function Entry(c: seq<Cell>, n: nat, rows: nat, i: nat, v: nat): Cell
    requires |c| == n * rows && v < n && i < rows
  {
    RowsInOrder(i + 1, rows, n);
    c[i * n + v]
  }

  lemma EntryUpdate(c: seq<Cell>, n: nat, rows: nat, i: nat, v: nat, x: Cell, j: nat, w: nat)
    requires |c| == n * rows && v < n && i < rows && w < n && j < rows && i * n + v < |c|
    ensures Entry(c[i * n + v := x], n, rows, j, w) == if j == i && w == v then x else Entry(c, n, rows, j, w)
  {
    RowsInOrder(j + 1, rows, n);
    RowsDoNotOverlap(n, i, j, v, w);
    var at, other := i * n + v, j * n + w;
    assert other < |c|;
    assert c[at := x][other] == if other == at then x else c[other];
  }

  lemma ColumnUpdate(c: seq<Cell>, n: nat, rows: nat, i: nat, v: nat, x: Cell, w: nat)
    requires |c| == n * rows && v < n && i < rows && w < n && i * n + v < |c|
    ensures Column(c[i * n + v := x], n, rows, w) == if w == v then Column(c, n, rows, v)[i := x] else Column(c, n, rows, w)
  {
    var d := c[i * n + v := x];
    var a, b := Column(d, n, rows, w), if w == v then Column(c, n, rows, v)[i := x] else Column(c, n, rows, w);
    forall j | 0 <= j < rows ensures a[j] == b[j] {
      EntryUpdate(c, n, rows, i, v, x, j, w);
    }
  }

  // The values by their number.  A number outside the slice is the source's
  // panic (None).
  method InvertIDs(ids: map<Value, nat>, n: nat) returns (values: Option<seq<Value>>)
    ensures values == None <==> Overflows(ids, n)
    ensures values.Some? ==> |values.value| == n
    ensures values.Some? && IsNumbering(ids, n) ==> forall v :: v in ids ==> values.value[ids[v]] == v
  {
    var a := new Value[n](_ => 0);
    var todo := ids.Keys;
    while todo != {}
      invariant todo <= ids.Keys
      invariant forall v :: v in ids && v !in todo ==> ids[v] < n
      invariant IsNumbering(ids, n) ==> forall v :: v in ids && v !in todo ==> a[ids[v]] == v
    {
      var v := Pick(todo);
      if ids[v] >= n {
        return None;
      }
      a[ids[v]] := v;
      todo := todo - {v};
    }
    forall v | v in ids ensures ids[v] < n {
      assert v !in todo;
    }
    return Some(a[..]);
  }

  // A value that keeps paths has a mark at a path if it has it there, further
  // down, or at the root.
  predicate HasMark(sensitive: bool, a: View, path: Path, mark: Mark) {
    if !sensitive then mark in At(a, ROOT)
    else exists p :: p in a && mark in a[p] && (path == ROOT || p == ROOT || path <= p)
  }

  ghost predicate CellHasMark(sensitive: bool, c: Cell, path: Path, mark: Mark) {
    c.Some? && HasMark(sensitive, c.value, path, mark)
  }

  ghost function WithMark(sensitive: bool, c: Cell, path: Path, mark: Mark): Cell {
    if CellHasMark(sensitive, c, path, mark) then c
    else
      var a, q := Made(sensitive, c), if sensitive then path else ROOT;
      Some(a[q := At(a, q) + {mark}])
  }

  // One cell got a mark, and r tells whether it did not have it.
  ghost predicate Marked(c: seq<Cell>, d: seq<Cell>, at: nat, sensitive: bool, path: Path, mark: Mark, r: bool) {
    at < |c| && d == c[at := WithMark(sensitive, c[at], path, mark)] && (r <==> !CellHasMark(sensitive, c[at], path, mark))
  }

  lemma WithMarkHasMark(sensitive: bool, c: Cell, path: Path, mark: Mark)
    ensures CellHasMark(sensitive, WithMark(sensitive, c, path, mark), path, mark)
    ensures CellLessEq(c, WithMark(sensitive, c, path, mark))
  {
    if !CellHasMark(sensitive, c, path, mark) {
      var a, q := Made(sensitive, c), if sensitive then path else ROOT;
      assert mark in a[q := At(a, q) + {mark}][q];
    }
  }

  // The mark lies at the path, further down, or at the root; everywhere, if the
  // path is the root.
  ghost predicate LiesAt(a: View, path: Path, mark: Mark) {
    exists p :: p in a && mark in a[p] && (p == path || p == ROOT || path == ROOT || path <= p)
  }

  // Afterwards the cell d has the mark; r is false exactly if c had it, and then
  // nothing has changed, else the mark has been put at the path.  A value that
  // keeps no paths has all its marks at the root.
  ghost predicate Told(c: Cell, d: Cell, sensitive: bool, path: Path, mark: Mark, r: bool) {
    && d.Some? && LiesAt(d.value, if sensitive then path else ROOT, mark)
    && (sensitive ==> (r <==> !(c.Some? && LiesAt(c.value, path, mark))))
    && (!sensitive ==> (r <==> !(c.Some? && ROOT in c.value && mark in c.value[ROOT])))
    && (!r ==> d == c)
    && d.value.Keys == (if c.Some? then c.value.Keys else if sensitive then {} else {ROOT})
                       + (if r then {if sensitive then path else ROOT} else {})
    && forall q, m {:trigger m in d.value[q]} :: (q in d.value && m in d.value[q]) <==>
         (c.Some? && q in c.value && m in c.value[q]) || (r && m == mark && q == if sensitive then path else ROOT)
  }

  lemma HasMarkLies(sensitive: bool, a: View, path: Path, mark: Mark)
    ensures sensitive ==> (HasMark(sensitive, a, path, mark) <==> LiesAt(a, path, mark))
    ensures !sensitive ==> (HasMark(sensitive, a, path, mark) <==> ROOT in a && mark in a[ROOT])
  {
  }

  lemma WithMarkTells(sensitive: bool, c: Cell, path: Path, mark: Mark)
    ensures Told(c, WithMark(sensitive, c, path, mark), sensitive, path, mark, !CellHasMark(sensitive, c, path, mark))
  {
    var d, q := WithMark(sensitive, c, path, mark), if sensitive then path else ROOT;
    if c.Some? {
      HasMarkLies(sensitive, c.value, path, mark);
    }
    if CellHasMark(sensitive, c, path, mark) {
      assert LiesAt(d.value, q, mark);
    } else {
      assert q in d.value && mark in d.value[q];
    }
  }

  // The numbers of the values and the values by their number, unless they wrap.
  method NumberValues(vs: seq<Option<Value>>) returns (ids: map<Value, nat>, n: nat, values: Option<seq<Value>>)
    ensures Numbered(vs, ids, n) && (values == None <==> |Values(vs)| >= WRAP)
    ensures values.Some? ==> |values.value| == n && forall v :: v in ids && ids[v] < n ==> values.value[ids[v]] == v
  {
    ids, n := AssignIDs(vs);
    values := InvertIDs(ids, n);
    if |Values(vs)| >= WRAP {
      WrappedOverflows(vs, ids, n);
    } else {
      NumberedOnce(vs, ids, n);
    }
  }

  // A cell is made if need be, and then merged into.
  lemma MergedAt(was: seq<Cell>, mid: seq<Cell>, now: seq<Cell>, at: nat, prev: nat, sensitive: bool)
    requires at < |was| && prev < |was| && mid == was[at := Some(Made(sensitive, was[at]))]
    requires now == mid[at := Some(if was[prev] == None then mid[at].value else Union(was[prev].value, mid[at].value))]
    ensures now == was[at := MergedCell(sensitive, was[at], was[prev])]
    ensures now != was <==> was[at] == None || now != mid
  {
    UnionEmpty(Made(sensitive, was[at]));
    if was[at].Some? {
      assert mid == was;
    }
  }

  // ------------------------------------------------------------ the table

  class FlowInformation {
    const numValues: nat
    const numInstructions: nat
    const valueID: map<Value, nat>
    const instrID: map<Instr, nat>
    const values: seq<Value>
    const pathSensitivityFilter: seq<bool>
    const markedValues: array<AbstractValue?>
    ghost var contents: seq<Cell>  // what the cells hold
    ghost var place: map<AbstractValue, nat>  // where a cell stands: in one place only
    ghost var repr: set<object>  // the cells and their sets of marks

    ghost predicate Sized() {
      && numValues * numInstructions < WRAP && markedValues.Length == numValues * numInstructions
      && |values| == numValues && |pathSensitivityFilter| == numValues
      && IsNumbering(valueID, numValues) && IsNumbering(instrID, numInstructions)
      && (forall v :: v in valueID ==> values[valueID[v]] == v)
    }

    // No two places share a cell, and so no two share a set of marks.
    ghost predicate Valid()
      reads this, markedValues, repr
    {
      && Sized() && |contents| == markedValues.Length
      && forall p :: 0 <= p < markedValues.Length ==> CellFits(markedValues[p], p)
    }

    // Which value the cells of a column are about, and whether they keep paths.
    ghost predicate CellFits(a: AbstractValue?, p: nat)
      requires Sized() && p < markedValues.Length && p < |contents|
      reads this, repr
    {
      if a == null then contents[p] == None
      else
        && a in repr && a.sets <= repr && a in place && place[a] == p
        && a.Valid() && contents[p] == Some(a.view) && About(a, p % numValues)
    }

    ghost predicate About(a: AbstractValue, v: nat)
      requires v < |values| && v < |pathSensitivityFilter|
    {
      a.value == values[v] && a.isPathSensitive == pathSensitivityFilter[v]
    }

    // The sizes wrap around, and so does the size of the table.
    constructor (valueID: map<Value, nat>, numValues: nat, instrID: map<Instr, nat>, numInstructions: nat,
                 values: seq<Value>, pathSensitive: bool)
      ensures this.valueID == valueID && this.numValues == numValues && this.values == values
      ensures this.instrID == instrID && this.numInstructions == numInstructions
      ensures pathSensitivityFilter == seq(numValues, _ => pathSensitive)
      ensures fresh(markedValues) && markedValues.Length == (numValues * numInstructions) % WRAP
      ensures forall p :: 0 <= p < markedValues.Length ==> markedValues[p] == null
      ensures contents == seq(markedValues.Length, _ => None) && repr == {}
    {
      this.valueID, this.numValues, this.instrID, this.numInstructions := valueID, numValues, instrID, numInstructions;
      this.values, pathSensitivityFilter := values, seq(numValues, _ => pathSensitive);
      markedValues := new AbstractValue?[(numValues * numInstructions) % WRAP](_ => null);
      contents, place, repr := seq((numValues * numInstructions) % WRAP, _ => None), map[], {};
    }

    // A table without marks.  None is the source's panic: there are so many
    // values that their numbers wrap around.
    static method NewFlowInfo(vs: seq<Option<Value>>, instrs: seq<Option<Instr>>, pathSensitive: bool)
      returns (fi: Option<FlowInformation>)
      ensures fi == None <==> |Values(vs)| >= WRAP
      ensures fi.Some? ==> fresh(fi.value) && fi.value.Describes(vs, instrs, pathSensitive)
      ensures fi.Some? ==> (fi.value.Valid() <==> |Values(instrs)| < WRAP && fi.value.numValues * fi.value.numInstructions < WRAP)
    {
      var vids, nv, list := NumberValues(vs);
      if list == None {
        return None;
      }
      var iids, ni := AssignIDs(instrs);
      var r := new FlowInformation(vids, nv, iids, ni, list.value, pathSensitive);
      assert r.Describes(vs, instrs, pathSensitive);
      r.ValidUnlessWrapped(vs, instrs, pathSensitive);
      return Some(r);
    }

    // The table as it is made for these values and instructions.
    ghost predicate Describes(vs: seq<Option<Value>>, instrs: seq<Option<Instr>>, pathSensitive: bool)
      reads this, markedValues
    {
      && Numbered(vs, valueID, numValues) && Numbered(instrs, instrID, numInstructions)
      && |values| == numValues && (forall v :: v in valueID && valueID[v] < numValues ==> values[valueID[v]] == v)
      && pathSensitivityFilter == seq(numValues, _ => pathSensitive)
      && markedValues.Length == (numValues * numInstructions) % WRAP
      && (forall p :: 0 <= p < markedValues.Length ==> markedValues[p] == null)
      && contents == seq(markedValues.Length, _ => None)
    }

    lemma ValidUnlessWrapped(vs: seq<Option<Value>>, instrs: seq<Option<Instr>>, pathSensitive: bool)
      requires Describes(vs, instrs, pathSensitive) && |Values(vs)| < WRAP
      ensures Valid() <==> |Values(instrs)| < WRAP && numValues * numInstructions < WRAP
    {
      assert IsNumbering(valueID, numValues) by {
        NumberedOnce(vs, valueID, numValues);
      }
      NumberingUnlessWrapped(instrs, instrID, numInstructions);
      if IsNumbering(instrID, numInstructions) {
        ValidIfSmall();
      }
    }

    lemma ValidIfSmall()
      requires |values| == numValues && |pathSensitivityFilter| == numValues
      requires markedValues.Length == (numValues * numInstructions) % WRAP && |contents| == markedValues.Length
      requires forall p :: 0 <= p < markedValues.Length ==> markedValues[p] == null && contents[p] == None
      requires IsNumbering(valueID, numValues) && IsNumbering(instrID, numInstructions)
      requires forall v :: v in valueID ==> values[valueID[v]] == v
      ensures Valid() <==> numValues * numInstructions < WRAP
    {
      if numValues * numInstructions < WRAP {
        SmallTable(numValues, numInstructions);
        EmptyIsValid();
      }
    }

    lemma EmptyIsValid()
      requires Sized() && |contents| == markedValues.Length
      requires forall p :: 0 <= p < markedValues.Length ==> markedValues[p] == null && contents[p] == None
      ensures Valid()
    {
    }

    // Where the abstract value of v at instruction i is kept.
    function GetPos(i: Instr, v: Value): (r: Option<nat>) {
      if i !in instrID || v !in valueID then None
      else Some(Position(numValues, instrID[i], valueID[v]))
    }

    // Different places have different positions, all in the table, and the cell
    // there is about the value asked for.
    lemma GetPosInjective(i: Instr, v: Value, j: Instr, w: Value)
      requires Valid() && i in instrID && v in valueID && j in instrID && w in valueID
      ensures GetPos(i, v).Some? && GetPos(i, v).value < markedValues.Length
      ensures GetPos(i, v) == GetPos(j, w) <==> i == j && v == w
      ensures var a := markedValues[GetPos(i, v).value]; a != null ==> a.value == v
    {
      PositionInjective(numValues, numInstructions, instrID[i], valueID[v], instrID[j], valueID[w]);
      PositionIsExact(numValues, numInstructions, instrID[i], valueID[v]);
      PlaceOf(numValues, numInstructions, instrID[i], valueID[v]);
      assert CellFits(markedValues[GetPos(i, v).value], GetPos(i, v).value);
    }

    // The sets of marks of two places are different objects.
    lemma CellsApart(p: nat, q: nat)
      requires Valid() && p < markedValues.Length && q < markedValues.Length && p != q
      requires markedValues[p] != null && markedValues[q] != null
      ensures markedValues[p] != markedValues[q] && markedValues[p].sets !! markedValues[q].sets
    {
      assert CellFits(markedValues[p], p) && CellFits(markedValues[q], q);
      ApartOrSame(markedValues[p], markedValues[q]);
    }

    // The cell at a position, made if it is not there.
    method EnsureCell(at: nat) returns (current: AbstractValue, created: bool)
      requires Valid() && at < markedValues.Length
      modifies this, markedValues
      ensures Valid() && fresh(repr - old(repr)) && markedValues[at] == current
      ensures created <==> old(contents)[at] == None
      ensures contents == old(contents)[at := Some(Made(pathSensitivityFilter[at % numValues], old(contents)[at]))]
      ensures forall p :: 0 <= p < markedValues.Length && p != at ==> markedValues[p] == old(markedValues[p])
    {
      assert CellFits(markedValues[at], at);
      created := markedValues[at] == null;
      if created {
        current := NewCell(at, values[at % numValues]);
      } else {
        current := markedValues[at];
      }
    }

    method NewCell(at: nat, v: Value) returns (a: AbstractValue)
      requires Valid() && at < markedValues.Length && markedValues[at] == null && v == values[at % numValues]
      modifies this, markedValues
      ensures Valid() && fresh(repr - old(repr)) && markedValues[at] == a
      ensures contents == old(contents)[at := Some(Made(pathSensitivityFilter[at % numValues], None))]
      ensures forall p :: 0 <= p < markedValues.Length && p != at ==> markedValues[p] == old(markedValues[p])
    {
      a := new AbstractValue(v, pathSensitivityFilter[at % numValues]);
      markedValues[at] := a;
      place := place[a := at];
      assert forall p :: 0 <= p < markedValues.Length && p != at ==> CellFits(markedValues[p], p);
      Note(at, a);
    }

    // Notes that the cell at a position has changed: all others are apart from it.
    ghost method Note(at: nat, a: AbstractValue)
      requires Sized() && |contents| == markedValues.Length && at < markedValues.Length && markedValues[at] == a
      requires a.Valid() && About(a, at % numValues) && a in place && place[a] == at
      requires forall p :: 0 <= p < markedValues.Length && p != at ==> CellFits(markedValues[p], p)
      modifies this
      ensures Valid() && contents == old(contents)[at := Some(a.view)] && repr == old(repr) + {a} + a.sets
    {
      contents, repr := contents[at := Some(a.view)], repr + {a} + a.sets;
    }

    // Merges a value into the cell at a position.
    method MergeCell(previous: AbstractValue?, at: nat, current: AbstractValue) returns (modified: bool)
      requires Valid() && at < markedValues.Length && markedValues[at] == current
      requires previous != null ==> previous.Valid() && previous.isPathSensitive == current.isPathSensitive
      modifies this, current, current.sets
      ensures Valid() && fresh(repr - old(repr))
      ensures contents == old(contents)[at := Some(if previous == null then old(current.view) else Union(old(previous.view), old(current.view)))]
      ensures modified <==> contents != old(contents)
    {
      assert CellFits(current, at);
      forall p | 0 <= p < markedValues.Length && p != at && markedValues[p] != null
        ensures markedValues[p] != current && markedValues[p].sets !! current.sets
      {
        CellsApart(p, at);
      }
      ghost var was := contents;
      modified := MergeInto(previous, current);
      assert forall p :: 0 <= p < markedValues.Length && p != at ==> CellFits(markedValues[p], p);
      Note(at, current);
      assert was[at] == Some(old(current.view));
    }

    // Merges the cell at one position into the cell of the same column at another,
    // which is made if it is not there.
    method MergeAt(at: nat, prev: nat) returns (changed: bool)
      requires Valid() && at < markedValues.Length && prev < markedValues.Length && at % numValues == prev % numValues
      modifies this, markedValues, repr
      ensures Valid() && fresh(repr - old(repr))
      ensures contents == old(contents)[at := MergedCell(pathSensitivityFilter[at % numValues], old(contents)[at], old(contents)[prev])]
      ensures changed <==> contents != old(contents)
    {
      ghost var was := contents;
      var previous := markedValues[prev];
      assert CellFits(previous, prev);
      var current, created := EnsureCell(at);
      assert CellFits(current, at);
      ghost var mid := contents;
      var modified := MergeCell(previous, at, current);
      MergedAt(was, mid, contents, at, prev, pathSensitivityFilter[at % numValues]);
      changed := created || modified;
    }

    method AddMarkAt(at: nat, v: Value, path: Path, mark: Mark) returns (r: bool)
      requires Valid() && at < markedValues.Length && values[at % numValues] == v
      modifies this, markedValues, repr
      ensures Valid() && fresh(repr - old(repr))
      ensures Marked(old(contents), contents, at, pathSensitivityFilter[at % numValues], path, mark, r)
    {
      var a := markedValues[at];
      assert CellFits(a, at);
      if a == null {
        a := NewCell(at, v);
        r := true;
      } else {
        r := !HasMark(a.isPathSensitive, a.PathMappings(), path, mark);
      }
      if r {
        AddToCell(at, a, path, mark);
      }
    }

    method AddToCell(at: nat, a: AbstractValue, path: Path, mark: Mark)
      requires Valid() && at < markedValues.Length && markedValues[at] == a
      modifies this, a, a.sets
      ensures Valid() && fresh(repr - old(repr))
      ensures var q := if a.isPathSensitive then path else ROOT;
              contents == old(contents)[at := Some(old(a.view)[q := At(old(a.view), q) + {mark}])]
    {
      assert CellFits(a, at);
      forall p | 0 <= p < markedValues.Length && p != at && markedValues[p] != null
        ensures markedValues[p] != a && markedValues[p].sets !! a.sets
      {
        CellsApart(p, at);
      }
      a.Add(path, mark);
      assert forall p :: 0 <= p < markedValues.Length && p != at ==> CellFits(markedValues[p], p);
      Note(at, a);
    }

    // Puts a mark on a value at an instruction; tells whether it was not there.
    method AddMark(i: Instr, v: Value, path: Path, mark: Mark) returns (r: bool)
      requires Valid()
      modifies this, markedValues, repr
      ensures Valid() && fresh(repr - old(repr))
      ensures GetPos(i, v).None? ==> !r && contents == old(contents)
      ensures GetPos(i, v).Some? ==>
                Marked(old(contents), contents, GetPos(i, v).value, pathSensitivityFilter[valueID[v]], path, mark, r)
                && var at := GetPos(i, v).value; Told(old(contents)[at], contents[at], pathSensitivityFilter[valueID[v]], path, mark, r)
    {
      var pos := GetPos(i, v);
      if pos.None? {
        return false;
      }
      PositionIsExact(numValues, numInstructions, instrID[i], valueID[v]);
      PlaceOf(numValues, numInstructions, instrID[i], valueID[v]);
      WithMarkTells(pathSensitivityFilter[valueID[v]], contents[pos.value], path, mark);
      r := AddMarkAt(pos.value, v, path, mark);
    }

    // Merges row p into row ins in one column, when that is done in the columns before.
    method MergeColumn(ins: nat, p: nat, v: nat, ghost c0: seq<Cell>) returns (grew: bool)
      requires Valid() && ins < numInstructions && p < numInstructions && v < numValues && |c0| == |contents|
      requires RowMerged(c0, contents, numValues, numInstructions, ins, p, pathSensitivityFilter, v) && TableLessEq(c0, contents)
      modifies this, markedValues, repr
      ensures Valid() && fresh(repr - old(repr))
      ensures RowMerged(c0, contents, numValues, numInstructions, ins, p, pathSensitivityFilter, v + 1)
      ensures TableLessEq(c0, contents) && (contents != c0 <==> old(contents) != c0 || grew)
    {
      ghost var c := contents;
      PlaceOf(numValues, numInstructions, ins, v);
      PlaceOf(numValues, numInstructions, p, v);
      var at, prev := ins * numValues % WRAP + v, p * numValues % WRAP + v;
      grew := MergeAt(at, prev);
      ghost var d := contents;
      RowMergedStep(c0, c, d, numValues, numInstructions, ins, p, pathSensitivityFilter, v, at, prev);
      MergedGrows(c, at, pathSensitivityFilter[v], c[prev]);
      GrownIsChanged(c0, c, d);
    }

    // Merges row p into row ins, value by value.
    method MergeRow(ins: nat, p: nat) returns (changed: bool)
      requires Valid() && ins < numInstructions && p < numInstructions
      modifies this, markedValues, repr
      ensures Valid() && fresh(repr - old(repr))
      ensures RowMerged(old(contents), contents, numValues, numInstructions, ins, p, pathSensitivityFilter, numValues)
      ensures changed <==> contents != old(contents)
      ensures TableLessEq(old(contents), contents)
    {
      changed := false;
      ghost var c0 := contents;
      for v := 0 to numValues
        invariant Valid() && fresh(repr - old(repr))
        invariant RowMerged(c0, contents, numValues, numInstructions, ins, p, pathSensitivityFilter, v)
        invariant TableLessEq(c0, contents) && (changed <==> contents != c0)
      {
        var grew := MergeColumn(ins, p, v, c0);
        changed := changed || grew;
      }
    }

    // Merges one more row into a row that has gathered the rows done since c0.
    method GatherRow(ins: nat, p: nat, ghost c0: seq<Cell>, ghost done: set<nat>) returns (changed: bool)
      requires Valid() && ins < numInstructions && p < numInstructions && |c0| == |contents|
      requires TableGathered(c0, contents, numValues, numInstructions, ins, done, pathSensitivityFilter)
      requires TableLessEq(c0, contents)
      modifies this, markedValues, repr
      ensures Valid() && fresh(repr - old(repr))
      ensures TableGathered(c0, contents, numValues, numInstructions, ins, done + {p}, pathSensitivityFilter)
      ensures TableLessEq(c0, contents) && (contents != c0 <==> old(contents) != c0 || changed)
    {
      ghost var c := contents;
      changed := MergeRow(ins, p);
      ghost var d := contents;
      TableGatheredStep(c0, c, d, numValues, numInstructions, ins, done, p, pathSensitivityFilter);
      GrownIsChanged(c0, c, d);
    }
  }

  // The first k columns have row p merged into row ins.
  ghost predicate RowMerged(c: seq<Cell>, d: seq<Cell>, n: nat, rows: nat, ins: nat, p: nat, filter: seq<bool>, k: nat)
    requires |c| == |d| == n * rows && ins < rows && p < rows && |filter| == n
  {
    forall v :: 0 <= v < n ==>
      (Column(d, n, rows, v) ==
       if v < k then ColumnMerged(Column(c, n, rows, v), ins, p, filter[v]) else Column(c, n, rows, v))
  }

  ghost function ColumnMerged(c: seq<Cell>, ins: nat, p: nat, sensitive: bool): seq<Cell>
    requires ins < |c| && p < |c|
  {
    c[ins := MergedCell(sensitive, c[ins], c[p])]
  }

  lemma RowMergedStep(c0: seq<Cell>, c: seq<Cell>, d: seq<Cell>, n: nat, rows: nat, ins: nat, p: nat, filter: seq<bool>,
                      k: nat, at: nat, prev: nat)
    requires |c0| == |c| == n * rows && ins < rows && p < rows && |filter| == n && k < n
    requires RowMerged(c0, c, n, rows, ins, p, filter, k)
    requires at == ins * n + k && prev == p * n + k && at < |c| && prev < |c|
    requires d == c[at := MergedCell(filter[k], c[at], c[prev])]
    ensures RowMerged(c0, d, n, rows, ins, p, filter, k + 1)
  {
    var x := MergedCell(filter[k], c[at], c[prev]);
    assert Column(c, n, rows, k)[ins] == c[at] && Column(c, n, rows, k)[p] == c[prev];
    forall v | 0 <= v < n ensures Column(d, n, rows, v) ==
      if v < k + 1 then ColumnMerged(Column(c0, n, rows, v), ins, p, filter[v]) else Column(c0, n, rows, v)
    {
      ColumnUpdate(c, n, rows, ins, k, x, v);
    }
  }

  // ------------------------------------------------------------ one instruction

  // Row ins gathered the rows preds in every column; all other rows are as they were.
  ghost predicate TableGathered(c: seq<Cell>, d: seq<Cell>, n: nat, rows: nat, ins: nat, preds: set<nat>, filter: seq<bool>)
    requires |c| == |d| == n * rows && ins < rows && |filter| == n
  {
    forall v :: 0 <= v < n ==> Gathered(Column(c, n, rows, v), Column(d, n, rows, v), ins, preds, filter[v])
  }

  lemma TableGatheredStep(c0: seq<Cell>, c: seq<Cell>, d: seq<Cell>, n: nat, rows: nat, ins: nat, preds: set<nat>, p: nat, filter: seq<bool>)
    requires |c0| == |c| == |d| == n * rows && ins < rows && p < rows && |filter| == n
    requires TableGathered(c0, c, n, rows, ins, preds, filter) && RowMerged(c, d, n, rows, ins, p, filter, n)
    ensures TableGathered(c0, d, n, rows, ins, preds + {p}, filter)
  {
    forall v | 0 <= v < n ensures Gathered(Column(c0, n, rows, v), Column(d, n, rows, v), ins, preds + {p}, filter[v]) {
      GatheredStep(Column(c0, n, rows, v), Column(c, n, rows, v), ins, preds, p, filter[v]);
    }
  }

  class IntraAnalysisState {
    const flowInfo: FlowInformation
    const instrPrev: seq<set<nat>>  // the numbers of the instructions before each one
    var changeFlag: bool

    ghost predicate Valid()
      reads flowInfo, flowInfo.markedValues, flowInfo.repr
    {
      && flowInfo.Valid() && this !in flowInfo.repr && |instrPrev| == flowInfo.numInstructions
      && forall i, p :: 0 <= i < |instrPrev| && p in instrPrev[i] ==> p < flowInfo.numInstructions
    }

    constructor (flowInfo: FlowInformation, instrPrev: seq<set<nat>>)
      requires flowInfo.Valid() && |instrPrev| == flowInfo.numInstructions
      requires forall i, p :: 0 <= i < |instrPrev| && p in instrPrev[i] ==> p < flowInfo.numInstructions
      ensures Valid() && this.flowInfo == flowInfo && this.instrPrev == instrPrev && !changeFlag
    {
      this.flowInfo, this.instrPrev, changeFlag := flowInfo, instrPrev, false;
    }

    // Before an instruction is visited its row gathers the rows of the
    // instructions before it.  The flag goes up if that changes anything.
    method Pre(ins: Instr, ignored: bool)
      requires Valid() && (ignored || ins in flowInfo.instrID)
      modifies this, flowInfo, flowInfo.markedValues, flowInfo.repr
      ensures Valid() && fresh(flowInfo.repr - old(flowInfo.repr))
      ensures changeFlag <==> old(changeFlag) || flowInfo.contents != old(flowInfo.contents)
      ensures if ignored then flowInfo.contents == old(flowInfo.contents)
              else
                var i := flowInfo.instrID[ins];
                TableGathered(old(flowInfo.contents), flowInfo.contents, flowInfo.numValues, flowInfo.numInstructions,
                              i, instrPrev[i], flowInfo.pathSensitivityFilter)
    {
      if ignored {
        return;
      }
      GatherAll(flowInfo.instrID[ins], changeFlag);
    }

    // Row i has gathered the rows of done since c0, when the flag was flag0.
    ghost predicate Gathering(i: nat, c0: seq<Cell>, flag0: bool, done: set<nat>)
      reads this, flowInfo, flowInfo.markedValues, flowInfo.repr
    {
      && Valid() && i < |instrPrev| && |c0| == |flowInfo.contents|
      && TableGathered(c0, flowInfo.contents, flowInfo.numValues, flowInfo.numInstructions, i, done, flowInfo.pathSensitivityFilter)
      && TableLessEq(c0, flowInfo.contents)
      && (changeFlag <==> flag0 || flowInfo.contents != c0)
    }

    // The loop over the instructions before.
    method GatherAll(i: nat, ghost flag0: bool)
      requires Valid() && i < |instrPrev| && changeFlag == flag0
      modifies this, flowInfo, flowInfo.markedValues, flowInfo.repr
      ensures Gathering(i, old(flowInfo.contents), flag0, instrPrev[i]) && fresh(flowInfo.repr - old(flowInfo.repr))
    {
      ghost var c0 := flowInfo.contents;
      var todo := instrPrev[i];
      ghost var done: set<nat> := {};
      while todo != {}
        invariant todo + done == instrPrev[i]
        invariant Gathering(i, c0, flag0, done) && fresh(flowInfo.repr - old(flowInfo.repr))
      {
        var p :| p in todo;
        GatherOne(i, p, c0, flag0, done);
        todo, done := todo - {p}, done + {p};
      }
      assert done == instrPrev[i];
    }

    method GatherOne(i: nat, p: nat, ghost c0: seq<Cell>, ghost flag0: bool, ghost done: set<nat>)
      requires Gathering(i, c0, flag0, done) && p < flowInfo.numInstructions
      modifies this, flowInfo, flowInfo.markedValues, flowInfo.repr
      ensures Gathering(i, c0, flag0, done + {p}) && fresh(flowInfo.repr - old(flowInfo.repr))
    {
      var changed := flowInfo.GatherRow(i, p, c0, done);
      if changed {
        changeFlag := true;
      }
    }
  }
}
