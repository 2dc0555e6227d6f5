// Escape graphs as values: the order in which the analysis converges, the
// closedness of statuses along edges, and the join of two graphs.
module EscapeLattice {
  import opened Paths

  datatype NodeKind =
    | KindAlloc
    | KindParam
    | KindLoad
    | KindGlobal
    | KindGlobalVar
    | KindVar
    | KindParamVar
    | KindReturn
    | KindUnknown

  // A node is identified by its number; numbers are handed out once.
  datatype Node = Node(kind: NodeKind, number: nat)

  type Status = s: int | 0 <= s <= 2
  const LOCAL: Status := 0
  const ESCAPED: Status := 1
  const LEAKED: Status := 2

  function IntrinsicEscape(n: Node): Status {
    match n.kind
    case KindParam | KindLoad => ESCAPED
    case KindGlobal | KindUnknown => LEAKED
    case _ => LOCAL
  }

  function Max(s: Status, t: Status): Status {
    if s < t then t else s
  }

  // The bit mask of an edge, as the set of its bits.
  datatype EdgeKind = Internal | External | Subnode
  type Flags = set<EdgeKind>
  const EDGE_ALL: Flags := {Internal, External, Subnode}

  datatype Edge = Edge(src: Node, dest: Node, mask: EdgeKind)

  datatype EscGraph = EscGraph(edges: map<Node, map<Node, Flags>>, status: map<Node, Status>)

  const EMPTY: EscGraph := EscGraph(map[], map[])

  predicate HasEdge(g: EscGraph, e: Edge) {
    e.src in g.edges && e.dest in g.edges[e.src] && e.mask in g.edges[e.src][e.dest]
  }

  predicate Arc(g: EscGraph, a: Node, b: Node) {
    a in g.edges && b in g.edges[a]
  }

  function Flow(g: EscGraph): Graph<Node> {
    map a | a in g.edges :: g.edges[a].Keys
  }

  // Every node has a row of edges and a status, at least its own; edges lead to nodes.
  ghost predicate Shaped(g: EscGraph) {
    && g.edges.Keys == g.status.Keys
    && (forall a, b {:trigger Arc(g, a, b)} {:trigger b in g.edges[a]} :: Arc(g, a, b) ==> b in g.status)
    && (forall n :: n in g.status ==> IntrinsicEscape(n) <= g.status[n])
  }

  // What every update of a graph keeps: no edge is without flags either.
  ghost predicate WellFormed(g: EscGraph) {
    && g.edges.Keys == g.status.Keys
    && (forall a, b :: Arc(g, a, b) ==> b in g.status && g.edges[a][b] != {})
    && (forall n :: n in g.status ==> IntrinsicEscape(n) <= g.status[n])
  }

  ghost predicate StatusClosed(g: EscGraph)
    requires Shaped(g)
  {
    forall a, b :: Arc(g, a, b) ==> g.status[a] <= g.status[b]
  }

  ghost predicate Good(g: EscGraph) {
    WellFormed(g) && StatusClosed(g)
  }

  // The order of the monotone framework.
  ghost predicate LessEq(g: EscGraph, h: EscGraph) {
    && (forall e :: HasEdge(g, e) ==> HasEdge(h, e))
    && (forall n :: n in g.status ==> n in h.status && g.status[n] <= h.status[n])
  }

  // j is the least closed graph above both g and h.
  ghost predicate IsJoin(j: EscGraph, g: EscGraph, h: EscGraph) {
    && Good(j)
    && LessEq(g, j) && LessEq(h, j)
    && forall k :: Good(k) && LessEq(g, k) && LessEq(h, k) ==> LessEq(j, k)
  }

  // What comes from a caller or out of memory has escaped, globals and unknown
  // objects have leaked, and nothing else has by itself.
  lemma IntrinsicByKind(n: Node)
    ensures n.kind in {KindParam, KindLoad} <==> IntrinsicEscape(n) == ESCAPED
    ensures n.kind in {KindGlobal, KindUnknown} <==> IntrinsicEscape(n) == LEAKED
  {
  }

  // What a global or an unknown object leads to has leaked, and what a parameter
  // or a load node leads to has escaped at least.
  lemma OutsideSpreads(g: EscGraph, a: Node, b: Node)
    requires Good(g) && a in g.status && Reach(Flow(g), a, b)
    ensures a.kind in {KindGlobal, KindUnknown} ==> b in g.status && g.status[b] == LEAKED
    ensures a.kind in {KindParam, KindLoad} ==> b in g.status && g.status[b] >= ESCAPED
  {
    StatusAlongPath(g, a, b);
    IntrinsicByKind(a);
  }

  // ------------------------------------------------------------ the order

  lemma LessEqTrans(g: EscGraph, h: EscGraph, k: EscGraph)
    requires LessEq(g, h) && LessEq(h, k)
    ensures LessEq(g, k)
  {
  }

  lemma EdgeFlags(g: EscGraph, h: EscGraph, a: Node, b: Node)
    requires WellFormed(g) && WellFormed(h) && LessEq(g, h)
    requires Arc(g, a, b)
    ensures Arc(h, a, b) && g.edges[a][b] <= h.edges[a][b]
  {
    assert g.edges[a][b] != {};
    var x :| x in g.edges[a][b];
    forall k | k in g.edges[a][b] ensures Arc(h, a, b) && k in h.edges[a][b] {
      assert HasEdge(g, Edge(a, b, k));
      assert HasEdge(h, Edge(a, b, k));
    }
    assert x in h.edges[a][b];
  }

  // On well-formed graphs the order is antisymmetric: two graphs below each
  // other are the same graph, which is what Matches tests.
  lemma Antisymmetric(g: EscGraph, h: EscGraph)
    requires WellFormed(g) && WellFormed(h)
    requires LessEq(g, h) && LessEq(h, g)
    ensures g == h
  {
    assert g.status == h.status;
    forall a | a in g.edges ensures g.edges[a] == h.edges[a] {
      forall b | b in g.edges[a] ensures b in h.edges[a] && g.edges[a][b] == h.edges[a][b] {
        EdgeFlags(g, h, a, b);
        EdgeFlags(h, g, a, b);
      }
      forall b | b in h.edges[a] ensures b in g.edges[a] {
        EdgeFlags(h, g, a, b);
      }
    }
    assert g.edges == h.edges;
  }

  // In a closed graph, status only grows along a path.
  lemma StatusAlongPath(g: EscGraph, a: Node, b: Node)
    requires Shaped(g) && StatusClosed(g) && a in g.status && Reach(Flow(g), a, b)
    ensures b in g.status && g.status[a] <= g.status[b]
  {
    var s := set n | n in g.status && g.status[a] <= g.status[n];
    forall x, y | x in s && y in Succ(Flow(g), x) ensures y in s {
      assert Arc(g, x, y);
    }
    ReachStays(Flow(g), s, a, b);
  }

  lemma FlowMono(g: EscGraph, h: EscGraph, a: Node, b: Node)
    requires WellFormed(g) && WellFormed(h) && LessEq(g, h)
    requires Reach(Flow(g), a, b)
    ensures Reach(Flow(h), a, b)
  {
    forall x | x in Flow(g) ensures Flow(g)[x] <= Succ(Flow(h), x) {
      forall y | y in Flow(g)[x] ensures y in Succ(Flow(h), x) {
        EdgeFlags(g, h, x, y);
      }
    }
    ReachMono(Flow(g), Flow(h), a, b);
  }

  // ------------------------------------------------------------ closure

  // Every node reachable from n is raised to at least s; nothing else changes.
  ghost function RaisedFrom(g: EscGraph, n: Node, s: Status): EscGraph {
    EscGraph(g.edges,
             map m | m in g.status :: if Reach(Flow(g), n, m) then Max(g.status[m], s) else g.status[m])
  }

  // The status a node gets when every node pushes its own along all paths.
  ghost function PushedStatus(g: EscGraph, n: Node): Status
    requires n in g.status
  {
    if exists m :: m in g.status && g.status[m] == LEAKED && Reach(Flow(g), m, n) then LEAKED
    else if exists m :: m in g.status && g.status[m] == ESCAPED && Reach(Flow(g), m, n) then ESCAPED
    else LOCAL
  }

  ghost function Close(g: EscGraph): EscGraph {
    EscGraph(g.edges, map n | n in g.status :: PushedStatus(g, n))
  }

  lemma PushedAtLeast(g: EscGraph, m: Node, n: Node)
    requires m in g.status && n in g.status && Reach(Flow(g), m, n)
    ensures g.status[m] <= PushedStatus(g, n)
  {
  }

  lemma PushedAttained(g: EscGraph, n: Node) returns (m: Node)
    requires n in g.status
    ensures m in g.status && g.status[m] == PushedStatus(g, n) && Reach(Flow(g), m, n)
  {
    ReachRefl(Flow(g), n);
    PushedAtLeast(g, n, n);
    m :| m in g.status && g.status[m] == PushedStatus(g, n) && Reach(Flow(g), m, n);
  }

  lemma PushedAlong(g: EscGraph, a: Node, b: Node)
    requires a in g.status && b in g.status && Arc(g, a, b)
    ensures PushedStatus(g, a) <= PushedStatus(g, b)
  {
    var m := PushedAttained(g, a);
    assert b in Succ(Flow(g), a);
    ReachSnoc(Flow(g), m, a, b);
    PushedAtLeast(g, m, b);
  }

  lemma PushedIsAbove(g: EscGraph, n: Node)
    requires n in g.status
    ensures g.status[n] <= PushedStatus(g, n)
  {
    ReachRefl(Flow(g), n);
    PushedAtLeast(g, n, n);
  }

  lemma CloseIsClosed(g: EscGraph)
    requires WellFormed(g)
    ensures Good(Close(g)) && LessEq(g, Close(g))
  {
    var c := Close(g);
    forall n | n in g.status ensures g.status[n] <= c.status[n] {
      PushedIsAbove(g, n);
    }
    forall a, b | Arc(c, a, b) ensures b in c.status && c.edges[a][b] != {} && c.status[a] <= c.status[b] {
      assert Arc(g, a, b);
      PushedAlong(g, a, b);
    }
  }

  lemma CloseIsBelow(g: EscGraph, k: EscGraph)
    requires WellFormed(g) && Good(k) && LessEq(g, k)
    ensures LessEq(Close(g), k)
  {
    var c := Close(g);
    forall e | HasEdge(c, e) ensures HasEdge(k, e) {
      assert HasEdge(g, e);
    }
    forall n | n in c.status ensures n in k.status && c.status[n] <= k.status[n] {
      var m := PushedAttained(g, n);
      FlowMono(g, k, m, n);
      StatusAlongPath(k, m, n);
    }
  }

  // Close(g) is the least closed graph above g.
  lemma CloseIsLeast(g: EscGraph)
    requires WellFormed(g)
    ensures Good(Close(g)) && LessEq(g, Close(g))
    ensures forall k :: Good(k) && LessEq(g, k) ==> LessEq(Close(g), k)
  {
    CloseIsClosed(g);
    forall k | Good(k) && LessEq(g, k) ensures LessEq(Close(g), k) {
      CloseIsBelow(g, k);
    }
  }

  // Raising one node of a closed graph along its paths gives the least closed
  // graph in which that node has the new status.
  lemma RaisedIsLeast(g: EscGraph, n: Node, s: Status)
    requires Good(g) && n in g.status
    ensures Good(RaisedFrom(g, n, s)) && LessEq(g, RaisedFrom(g, n, s))
    ensures s <= RaisedFrom(g, n, s).status[n]
    ensures forall k :: Good(k) && LessEq(g, k) && s <= k.status[n] ==> LessEq(RaisedFrom(g, n, s), k)
  {
    var r := RaisedFrom(g, n, s);
    ReachRefl(Flow(g), n);
    forall a, b | Arc(r, a, b) ensures r.status[a] <= r.status[b] {
      if Reach(Flow(g), n, a) {
        ReachSnoc(Flow(g), n, a, b);
      }
    }
    forall k | Good(k) && LessEq(g, k) && s <= k.status[n] ensures LessEq(r, k) {
      forall e | HasEdge(r, e) ensures HasEdge(k, e) {
        assert HasEdge(g, e);
      }
      forall m | m in r.status ensures m in k.status && r.status[m] <= k.status[m] {
        if Reach(Flow(g), n, m) {
          FlowMono(g, k, n, m);
          StatusAlongPath(k, n, m);
        }
      }
    }
  }

  // ------------------------------------------------------------ adding edges

  function WithNode(g: EscGraph, n: Node): EscGraph {
    if n in g.status then g
    else EscGraph(g.edges[n := map[]], g.status[n := IntrinsicEscape(n)])
  }

  function WithFlags(g: EscGraph, a: Node, b: Node, f: Flags): EscGraph
    requires a in g.edges
  {
    var before := if b in g.edges[a] then g.edges[a][b] else {};
    g.(edges := g.edges[a := g.edges[a][b := before + f]])
  }

  // Both ends are added, the flags are or-ed in; statuses are not pushed yet.
  function EdgeInserted(g: EscGraph, a: Node, b: Node, f: Flags): EscGraph
    requires g.edges.Keys == g.status.Keys
  {
    WithFlags(WithNode(WithNode(g, a), b), a, b, f)
  }

  ghost function WithEdge(g: EscGraph, a: Node, b: Node, f: Flags): EscGraph
    requires g.edges.Keys == g.status.Keys
  {
    var i := EdgeInserted(g, a, b, f);
    RaisedFrom(i, b, i.status[a])
  }

  lemma WithNodeIsGood(g: EscGraph, n: Node)
    requires Good(g)
    ensures var w := WithNode(g, n);
      && Good(w) && LessEq(g, w)
      && (forall e :: HasEdge(w, e) <==> HasEdge(g, e))
      && (forall x, y :: Arc(w, x, y) <==> Arc(g, x, y))
  {
    var w := WithNode(g, n);
    forall x, y ensures Arc(w, x, y) <==> Arc(g, x, y) {
    }
    forall e ensures HasEdge(w, e) <==> HasEdge(g, e) {
    }
    forall x, y | Arc(w, x, y) ensures y in w.status && w.edges[x][y] != {} && w.status[x] <= w.status[y] {
      assert Arc(g, x, y);
    }
  }

  lemma WithNodeIsLeast(g: EscGraph, n: Node)
    requires Good(g)
    ensures Good(WithNode(g, n)) && LessEq(g, WithNode(g, n))
    ensures forall k :: Good(k) && LessEq(g, k) && n in k.status ==> LessEq(WithNode(g, n), k)
  {
    WithNodeIsGood(g, n);
  }

  lemma WithFlagsShape(g: EscGraph, a: Node, b: Node, f: Flags)
    requires a in g.edges
    ensures var i := WithFlags(g, a, b, f);
      && i.edges.Keys == g.edges.Keys
      && (forall x, y :: Arc(i, x, y) <==> Arc(g, x, y) || (x == a && y == b))
      && (forall x, y :: Arc(g, x, y) ==> g.edges[x][y] <= i.edges[x][y])
      && f <= i.edges[a][b]
      && (forall e :: HasEdge(i, e) <==> HasEdge(g, e) || (e.src == a && e.dest == b && e.mask in f))
  {
  }

  lemma WithEndsShape(g: EscGraph, a: Node, b: Node)
    requires Good(g)
    ensures var w := WithNode(WithNode(g, a), b);
      && Good(w) && LessEq(g, w) && a in w.status && b in w.status
      && (forall e :: HasEdge(w, e) <==> HasEdge(g, e))
      && (forall x, y :: Arc(w, x, y) <==> Arc(g, x, y))
  {
    WithNodeIsGood(g, a);
    WithNodeIsGood(WithNode(g, a), b);
    LessEqTrans(g, WithNode(g, a), WithNode(WithNode(g, a), b));
  }

  lemma InsertedShape(g: EscGraph, a: Node, b: Node, f: Flags)
    requires Good(g)
    ensures var i := EdgeInserted(g, a, b, f);
      && Shaped(i) && LessEq(g, i)
      && (WellFormed(i) <==> f != {} || Arc(g, a, b))
      && (forall e :: HasEdge(i, e) <==> HasEdge(g, e) || (e.src == a && e.dest == b && e.mask in f))
      && i.status == WithNode(WithNode(g, a), b).status
      && (forall x, y :: Arc(i, x, y) && !(x == a && y == b) ==> i.status[x] <= i.status[y])
  {
    WithEndsShape(g, a, b);
    var w := WithNode(WithNode(g, a), b);
    WithFlagsShape(w, a, b, f);
    var i := EdgeInserted(g, a, b, f);
    assert i == WithFlags(w, a, b, f);
    forall x, y | Arc(i, x, y) && !(x == a && y == b) ensures i.edges[x][y] != {} {
      assert Arc(w, x, y) && w.edges[x][y] <= i.edges[x][y];
    }
    assert Arc(i, a, b);
    if f == {} && !Arc(g, a, b) {
      assert !Arc(w, a, b) && i.edges[a][b] == {};
    }
  }

  lemma RepairIsGood(i: EscGraph, a: Node, b: Node)
    requires WellFormed(i) && Arc(i, a, b)
    requires forall x, y :: Arc(i, x, y) && !(x == a && y == b) ==> i.status[x] <= i.status[y]
    ensures var w := RaisedFrom(i, b, i.status[a]); Good(w) && LessEq(i, w)
  {
    var fl := Flow(i);
    var w := RaisedFrom(i, b, i.status[a]);
    assert forall e :: HasEdge(w, e) <==> HasEdge(i, e);
    ReachRefl(fl, b);
    forall x, y | Arc(w, x, y) ensures w.status[x] <= w.status[y] {
      assert Arc(i, x, y);
      assert y in Succ(fl, x);
      if Reach(fl, b, x) {
        ReachSnoc(fl, b, x, y);
      }
    }
  }

  lemma RepairIsBelow(i: EscGraph, a: Node, b: Node, k: EscGraph)
    requires WellFormed(i) && Arc(i, a, b) && Good(k) && LessEq(i, k)
    ensures LessEq(RaisedFrom(i, b, i.status[a]), k)
  {
    var w := RaisedFrom(i, b, i.status[a]);
    EdgeFlags(i, k, a, b);
    forall e | HasEdge(w, e) ensures HasEdge(k, e) {
      assert HasEdge(i, e);
    }
    forall m | m in w.status ensures m in k.status && w.status[m] <= k.status[m] {
      if Reach(Flow(i), b, m) {
        FlowMono(i, k, b, m);
        StatusAlongPath(k, b, m);
      }
    }
  }

  // A graph closed but for one edge is repaired by raising what its end reaches.
  lemma RepairIsLeast(i: EscGraph, a: Node, b: Node)
    requires WellFormed(i) && Arc(i, a, b)
    requires forall x, y :: Arc(i, x, y) && !(x == a && y == b) ==> i.status[x] <= i.status[y]
    ensures var w := RaisedFrom(i, b, i.status[a]);
      && Good(w) && LessEq(i, w)
      && (forall k :: Good(k) && LessEq(i, k) ==> LessEq(w, k))
  {
    RepairIsGood(i, a, b);
    forall k | Good(k) && LessEq(i, k) ensures LessEq(RaisedFrom(i, b, i.status[a]), k) {
      RepairIsBelow(i, a, b, k);
    }
  }

  // Adding an edge gives the least closed graph that has it.
  lemma WithEdgeIsLeast(g: EscGraph, a: Node, b: Node, f: Flags)
    requires Good(g) && f != {}
    ensures var w := WithEdge(g, a, b, f);
      && Good(w) && LessEq(g, w)
      && (forall k :: k in f ==> HasEdge(w, Edge(a, b, k)))
      && (forall k :: Good(k) && LessEq(g, k) && (forall m :: m in f ==> HasEdge(k, Edge(a, b, m))) ==> LessEq(w, k))
  {
    InsertedShape(g, a, b, f);
    var i := EdgeInserted(g, a, b, f);
    var x :| x in f;
    assert HasEdge(i, Edge(a, b, x));
    RepairIsLeast(i, a, b);
    var w := WithEdge(g, a, b, f);
    LessEqTrans(g, i, w);
    forall k | Good(k) && LessEq(g, k) && (forall m :: m in f ==> HasEdge(k, Edge(a, b, m))) ensures LessEq(w, k) {
      EdgeInKeepsBelow(g, a, b, f, k);
    }
  }

  lemma EdgeInKeepsBelow(g: EscGraph, a: Node, b: Node, f: Flags, k: EscGraph)
    requires Good(g) && f != {} && Good(k) && LessEq(g, k)
    requires forall m :: m in f ==> HasEdge(k, Edge(a, b, m))
    ensures LessEq(EdgeInserted(g, a, b, f), k)
  {
    InsertedShape(g, a, b, f);
    var i := EdgeInserted(g, a, b, f);
    EndsInKeepBelow(g, a, b, f, k);
    forall e | HasEdge(i, e) ensures HasEdge(k, e) {
      assert HasEdge(g, e) || e == Edge(a, b, e.mask);
    }
  }

  lemma EndsInKeepBelow(g: EscGraph, a: Node, b: Node, f: Flags, k: EscGraph)
    requires Good(g) && f != {} && Good(k) && LessEq(g, k)
    requires forall m :: m in f ==> HasEdge(k, Edge(a, b, m))
    ensures LessEq(WithNode(WithNode(g, a), b), k)
  {
    var x :| x in f;
    assert HasEdge(k, Edge(a, b, x));
    assert Arc(k, a, b);
    WithNodeIsLeast(g, a);
    WithNodeIsLeast(WithNode(g, a), b);
  }

  // ------------------------------------------------------------ the join

  function SuccFlags(g: EscGraph, a: Node): map<Node, Flags> {
    if a in g.edges then g.edges[a] else map[]
  }

  function StatusOf(g: EscGraph, n: Node): Status {
    if n in g.status then g.status[n] else LOCAL
  }

  function MergedRow(r: map<Node, Flags>, s: map<Node, Flags>): (m: map<Node, Flags>)
    ensures m.Keys == r.Keys + s.Keys
  {
    map b | b in r.Keys + s.Keys :: (if b in r then r[b] else {}) + (if b in s then s[b] else {})
  }

  // All edges of both, and on each node the higher status: not closed yet.
  function Pointwise(g: EscGraph, h: EscGraph): EscGraph {
    EscGraph(
      map a | a in g.edges.Keys + h.edges.Keys :: MergedRow(SuccFlags(g, a), SuccFlags(h, a)),
      map n | n in g.status.Keys + h.status.Keys :: Max(StatusOf(g, n), StatusOf(h, n)))
  }

  ghost function Join(g: EscGraph, h: EscGraph): EscGraph {
    Close(Pointwise(g, h))
  }

  lemma PointwiseEdges(g: EscGraph, h: EscGraph, e: Edge)
    ensures HasEdge(Pointwise(g, h), e) <==> HasEdge(g, e) || HasEdge(h, e)
  {
  }

  lemma PointwiseIsWellFormed(g: EscGraph, h: EscGraph)
    requires WellFormed(g) && WellFormed(h)
    ensures WellFormed(Pointwise(g, h))
  {
    var p := Pointwise(g, h);
    forall a, b | Arc(p, a, b) ensures b in p.status && p.edges[a][b] != {} {
      assert Arc(g, a, b) || Arc(h, a, b);
    }
    assert p.edges.Keys == g.edges.Keys + h.edges.Keys;
    assert p.status.Keys == g.status.Keys + h.status.Keys;
  }

  // Without closedness the pointwise maximum is the least upper bound.
  lemma PointwiseIsLub(g: EscGraph, h: EscGraph)
    ensures LessEq(g, Pointwise(g, h)) && LessEq(h, Pointwise(g, h))
    ensures forall k :: LessEq(g, k) && LessEq(h, k) ==> LessEq(Pointwise(g, h), k)
  {
    forall e ensures HasEdge(Pointwise(g, h), e) <==> HasEdge(g, e) || HasEdge(h, e) {
      PointwiseEdges(g, h, e);
    }
  }

  lemma JoinIsLub(g: EscGraph, h: EscGraph)
    requires Good(g) && Good(h)
    ensures IsJoin(Join(g, h), g, h)
  {
    var p := Pointwise(g, h);
    PointwiseIsWellFormed(g, h);
    PointwiseIsLub(g, h);
    CloseIsLeast(p);
    LessEqTrans(g, p, Close(p));
    LessEqTrans(h, p, Close(p));
  }

  lemma JoinUnique(j: EscGraph, g: EscGraph, h: EscGraph)
    requires Good(g) && Good(h) && IsJoin(j, g, h)
    ensures j == Join(g, h)
  {
    JoinIsLub(g, h);
    Antisymmetric(j, Join(g, h));
  }

  lemma JoinCommutes(g: EscGraph, h: EscGraph)
    requires Good(g) && Good(h)
    ensures Join(g, h) == Join(h, g)
  {
    JoinIsLub(g, h);
    JoinUnique(Join(g, h), h, g);
  }

  lemma JoinIdempotent(g: EscGraph)
    requires Good(g)
    ensures Join(g, g) == g && Join(g, EMPTY) == g
  {
    assert IsJoin(g, g, g);
    JoinUnique(g, g, g);
    assert IsJoin(g, g, EMPTY);
    JoinUnique(g, g, EMPTY);
  }

  lemma JoinAssociates(g: EscGraph, h: EscGraph, k: EscGraph)
    requires Good(g) && Good(h) && Good(k)
    ensures Join(Join(g, h), k) == Join(g, Join(h, k))
  {
    var gh, hk := Join(g, h), Join(h, k);
    JoinIsLub(g, h);
    JoinIsLub(h, k);
    JoinIsLub(gh, k);
    var j := Join(gh, k);
    LessEqTrans(g, gh, j);
    LessEqTrans(h, gh, j);
    forall u | Good(u) && LessEq(g, u) && LessEq(hk, u) ensures LessEq(j, u) {
      LessEqTrans(h, hk, u);
      LessEqTrans(k, hk, u);
    }
    assert IsJoin(j, g, hk);
    JoinUnique(j, g, hk);
  }

  lemma JoinMono(g: EscGraph, g': EscGraph, h: EscGraph, h': EscGraph)
    requires Good(g) && Good(g') && Good(h) && Good(h')
    requires LessEq(g, g') && LessEq(h, h')
    ensures LessEq(Join(g, h), Join(g', h'))
  {
    JoinIsLub(g, h);
    JoinIsLub(g', h');
    LessEqTrans(g, g', Join(g', h'));
    LessEqTrans(h, h', Join(g', h'));
  }

  // The pointwise maximum is the join exactly when it is already closed; a
  // status in one graph and an edge in the other are enough to break it.
  lemma PointwiseIsJoinIffClosed(g: EscGraph, h: EscGraph)
    requires Good(g) && Good(h)
    ensures WellFormed(Pointwise(g, h))
    ensures Pointwise(g, h) == Join(g, h) <==> StatusClosed(Pointwise(g, h))
  {
    var p := Pointwise(g, h);
    PointwiseIsWellFormed(g, h);
    PointwiseIsLub(g, h);
    CloseIsLeast(p);
    if StatusClosed(p) {
      Antisymmetric(p, Close(p));
    }
  }

  lemma PointwiseIsNotAlwaysJoin() returns (g: EscGraph, h: EscGraph)
    ensures Good(g) && Good(h) && Pointwise(g, h) != Join(g, h)
  {
    var a, b := Node(KindVar, 0), Node(KindVar, 1);
    g := EscGraph(map[a := map[b := {Internal}], b := map[]], map[a := LOCAL, b := LOCAL]);
    h := EscGraph(map[a := map[]], map[a := ESCAPED]);
    assert Good(g) && Good(h);
    PointwiseIsJoinIffClosed(g, h);
    var p := Pointwise(g, h);
    assert HasEdge(g, Edge(a, b, Internal));
    PointwiseEdges(g, h, Edge(a, b, Internal));
    assert Arc(p, a, b);
    assert p.status[a] == ESCAPED && p.status[b] == LOCAL;
  }
}
