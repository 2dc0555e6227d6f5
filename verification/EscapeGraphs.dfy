// The mutable escape graph: two maps updated in place by worklist loops.
module EscapeGraphs {
  import opened Options
  import opened Paths
  import opened EscapeLattice

  // The status levels a node could still be raised to.
  ghost function Headroom(status: map<Node, Status>): set<(Node, int)> {
    set n, l | n in status.Keys && l in {0, 1, 2} && status[n] < l :: (n, l)
  }

  lemma HeadroomShrinks(status: map<Node, Status>, n: Node, s: Status)
    requires n in status && status[n] < s
    ensures Headroom(status[n := s]) < Headroom(status)
  {
    assert (n, s) in Headroom(status) && (n, s) !in Headroom(status[n := s]);
  }

  // Only nodes reachable from b have changed, each from below s to s.
  ghost predicate RaisedOnly(before: map<Node, Status>, after: map<Node, Status>,
                             flow: Graph<Node>, b: Node, s: Status)
  {
    && after.Keys == before.Keys
    && forall m :: m in after ==> after[m] == before[m] || (before[m] < s && after[m] == s && Reach(flow, b, m))
  }

  // Every edge that does not start in open is closed.
  ghost predicate ClosedOutside(g: EscGraph, open: set<Node>)
    requires Shaped(g)
  {
    forall x, y :: Arc(g, x, y) && x !in open ==> g.status[x] <= g.status[y]
  }

  // Only edges out of a may be open.
  ghost predicate OpenAt(g: EscGraph, a: Node) {
    Shaped(g) && ClosedOutside(g, {a})
  }

  // From g to h the status of a has been pushed over an edge to b and on from b.
  ghost predicate PushedOver(g: EscGraph, h: EscGraph, a: Node, b: Node) {
    && OpenAt(h, a) && h.edges == g.edges
    && a in g.status && RaisedOnly(g.status, h.status, Flow(g), b, g.status[a])
    && b in h.status && h.status[a] == g.status[a] <= h.status[b]
  }

  // The state of the closure between two worklist steps: nodes on the worklist
  // have been raised to s but not pushed on yet.
  ghost predicate Pushing(g0: EscGraph, g: EscGraph, a: Node, b: Node, s: Status, work: seq<Node>) {
    && Shaped(g) && g.edges == g0.edges
    && RaisedOnly(g0.status, g.status, Flow(g0), b, s)
    && b in g.status && s <= g.status[b]
    && (forall n :: n in work ==> n in g.status && g.status[n] == s && Reach(Flow(g0), b, n))
    && (forall x, y :: Arc(g, x, y) && x != a && x !in work ==> g.status[x] <= g.status[y])
  }

  lemma SuccHaveStatus(g: EscGraph, n: Node)
    requires Shaped(g)
    ensures Succ(Flow(g), n) <= g.status.Keys
  {
    assert forall y :: y in Succ(Flow(g), n) ==> Arc(g, n, y);
  }

  lemma PushingStarts(g0: EscGraph, g: EscGraph, a: Node, b: Node)
    requires Shaped(g0) && ClosedOutside(g0, {a})
    requires a in g0.status && b in g0.status && g0.status[b] < g0.status[a]
    requires g == g0.(status := g0.status[b := g0.status[a]])
    ensures Pushing(g0, g, a, b, g0.status[a], [b])
  {
    ReachRefl(Flow(g0), b);
    assert forall x, y :: Arc(g, x, y) <==> Arc(g0, x, y);
  }

  // From st0 to st the nodes of pushed, all of them of done, have been raised to
  // the status of node, and now none of done is below it.
  ghost predicate Raising(st0: map<Node, Status>, st: map<Node, Status>, node: Node, done: set<Node>, pushed: seq<Node>) {
    && st.Keys == st0.Keys && node in st && st[node] == st0[node]
    && (forall m :: m in st && m !in pushed ==> st[m] == st0[m])
    && (forall m :: m in pushed ==> m in done && m in st && st0[m] < st0[node] == st[m])
    && (forall m :: m in done ==> m in st && st[node] <= st[m])
    && (Headroom(st) < Headroom(st0) || (st == st0 && pushed == []))
  }

  lemma RaisingStep(st0: map<Node, Status>, st: map<Node, Status>, node: Node, done: set<Node>, pushed: seq<Node>, m: Node)
    requires Raising(st0, st, node, done, pushed) && m in st
    ensures if st[node] > st[m] then Raising(st0, st[m := st[node]], node, done + {m}, pushed + [m])
            else Raising(st0, st, node, done + {m}, pushed)
  {
    if st[node] > st[m] {
      HeadroomShrinks(st, m, st[node]);
    }
  }

  lemma PushingSteps(g0: EscGraph, g: EscGraph, h: EscGraph, a: Node, b: Node, s: Status,
                     work: seq<Node>, node: Node, pushed: seq<Node>)
    requires Pushing(g0, g, a, b, s, work + [node])
    requires h.edges == g.edges && Raising(g.status, h.status, node, Succ(Flow(g), node), pushed)
    ensures Pushing(g0, h, a, b, s, work + pushed)
  {
    assert node in work + [node];
    forall m | m in pushed ensures Reach(Flow(g0), b, m) {
      ReachSnoc(Flow(g0), b, node, m);
    }
    forall x, y | Arc(h, x, y) && x != a && x !in work + pushed ensures h.status[x] <= h.status[y] {
      assert Arc(g, x, y);
      assert x == node || x !in work + [node];
      assert x == node ==> y in Succ(Flow(g), node);
    }
  }

  lemma PushingDone(g0: EscGraph, g: EscGraph, a: Node, b: Node)
    requires a in g0.status && b in g0.status && g0.status[b] < g0.status[a]
    requires Pushing(g0, g, a, b, g0.status[a], [])
    ensures PushedOver(g0, g, a, b)
  {
  }

  lemma RaisedIsExact(before: EscGraph, after: EscGraph, b: Node, s: Status)
    requires Shaped(before) && Shaped(after) && StatusClosed(after) && after.edges == before.edges
    requires RaisedOnly(before.status, after.status, Flow(before), b, s)
    requires b in after.status && s <= after.status[b]
    ensures after == RaisedFrom(before, b, s)
  {
    forall m | m in after.status && Reach(Flow(after), b, m) ensures s <= after.status[m] {
      StatusAlongPath(after, b, m);
    }
    assert Flow(after) == Flow(before);
    assert after.status == RaisedFrom(before, b, s).status;
  }

  lemma RaisedAlready(g: EscGraph, n: Node, s: Status)
    requires Good(g) && n in g.status && s <= g.status[n]
    ensures RaisedFrom(g, n, s) == g
  {
    ReachRefl(Flow(g), n);
    RaisedIsExact(g, g, n, s);
  }

  // n has been raised to s and all that its pointees reach as well, except perhaps
  // what the pending ones do.
  ghost predicate Spreading(before: EscGraph, g: EscGraph, n: Node, s: Status, pending: set<Node>) {
    && Shaped(before) && OpenAt(g, n) && g.edges == before.edges
    && RaisedOnly(before.status, g.status, Flow(before), n, s)
    && n in g.status && g.status[n] == s
    && pending <= Succ(Flow(before), n)
    && forall y :: y in Succ(Flow(before), n) && y !in pending ==> y in g.status && s <= g.status[y]
  }

  lemma SpreadingStarts(before: EscGraph, n: Node, s: Status)
    requires Good(before) && n in before.status && before.status[n] < s
    ensures Spreading(before, before.(status := before.status[n := s]), n, s, Succ(Flow(before), n))
  {
    ReachRefl(Flow(before), n);
    var g := before.(status := before.status[n := s]);
    forall x, y | Arc(g, x, y) && x != n ensures g.status[x] <= g.status[y] {
      assert Arc(before, x, y);
    }
  }

  lemma SpreadingOpen(before: EscGraph, g: EscGraph, n: Node, s: Status, pending: set<Node>, y: Node)
    requires Spreading(before, g, n, s, pending) && y in pending
    ensures y in g.status
  {
    assert Arc(g, n, y);
  }

  lemma SpreadingSteps(before: EscGraph, g: EscGraph, h: EscGraph, n: Node, s: Status, pending: set<Node>, y: Node)
    requires Spreading(before, g, n, s, pending) && y in pending
    requires PushedOver(g, h, n, y)
    ensures Spreading(before, h, n, s, pending - {y})
  {
    forall m | m in h.status && h.status[m] != g.status[m] ensures Reach(Flow(before), n, m) {
      ReachCons(Flow(before), n, y, m);
    }
  }

  lemma SpreadingDone(before: EscGraph, g: EscGraph, n: Node, s: Status)
    requires Good(before) && Spreading(before, g, n, s, {})
    ensures g == RaisedFrom(before, n, s) && Good(g)
  {
    forall x, y | Arc(g, x, y) ensures g.status[x] <= g.status[y] {
      assert y in Succ(Flow(before), x);
    }
    RaisedIsExact(before, g, n, s);
    RaisedIsLeast(before, n, s);
  }

  // An edge has been inserted and the status of its source pushed over it.
  lemma EdgeClosed(before: EscGraph, h: EscGraph, a: Node, b: Node, f: Flags)
    requires Good(before) && PushedOver(EdgeInserted(before, a, b, f), h, a, b)
    ensures h == WithEdge(before, a, b, f)
    ensures Good(h) <==> f != {} || Arc(before, a, b)
  {
    var i := EdgeInserted(before, a, b, f);
    InsertedShape(before, a, b, f);
    ClosedBySource(i, h, a, b, i.status[a]);
    RaisedIsExact(i, h, b, i.status[a]);
    assert forall x, y :: Arc(h, x, y) <==> Arc(i, x, y);
  }

  // The one open edge of a graph into which an edge has been inserted.
  lemma InsertedOpen(g: EscGraph, a: Node, b: Node, f: Flags)
    requires Good(g)
    ensures var i := EdgeInserted(g, a, b, f);
      OpenAt(i, a) && a in i.status && b in i.status
  {
    InsertedShape(g, a, b, f);
  }

  // When only one edge was open and its end has been raised, none is open now.
  lemma ClosedBySource(g: EscGraph, h: EscGraph, a: Node, b: Node, s: Status)
    requires Shaped(g) && Shaped(h) && h.edges == g.edges
    requires forall x, y :: Arc(g, x, y) && !(x == a && y == b) ==> g.status[x] <= g.status[y]
    requires RaisedOnly(g.status, h.status, Flow(g), b, s)
    requires ClosedOutside(h, {a}) && a in h.status && h.status[a] == g.status[a]
    requires b in h.status && h.status[a] <= h.status[b]
    ensures StatusClosed(h)
  {
    forall x, y | Arc(h, x, y) ensures h.status[x] <= h.status[y] {
      assert Arc(g, x, y);
    }
  }

  lemma AllKinds()
    ensures forall k: EdgeKind :: k in EDGE_ALL
  {
    forall k: EdgeKind ensures k in EDGE_ALL {
      match k
      case Internal =>
      case External =>
      case Subnode =>
    }
  }

  // A merge of h0 into g0 under way: g is between g0 and the join j, and of h0
  // at most the edges es and the statuses of ns are still missing.
  ghost predicate Merging(g0: EscGraph, h0: EscGraph, j: EscGraph, g: EscGraph, es: set<Edge>, ns: set<Node>) {
    && Good(g) && Good(j) && LessEq(g0, g) && LessEq(g, j) && LessEq(h0, j)
    && (forall e :: HasEdge(h0, e) && e !in es ==> HasEdge(g, e))
    && (forall n :: n in h0.status && n !in ns ==> n in g.status && h0.status[n] <= g.status[n])
  }

  lemma MergingEdge(g0: EscGraph, h0: EscGraph, j: EscGraph, g: EscGraph, es: set<Edge>, ns: set<Node>, e: Edge)
    requires Merging(g0, h0, j, g, es, ns) && HasEdge(h0, e)
    ensures Merging(g0, h0, j, WithEdge(g, e.src, e.dest, {e.mask}), es - {e}, ns)
  {
    WithEdgeIsLeast(g, e.src, e.dest, {e.mask});
    assert e == Edge(e.src, e.dest, e.mask);
    LessEqTrans(g0, g, WithEdge(g, e.src, e.dest, {e.mask}));
  }

  // The status merged for n is that of h0, or that of g if the two are one graph.
  lemma MergingNode(g0: EscGraph, h0: EscGraph, j: EscGraph, g: EscGraph, es: set<Edge>, ns: set<Node>, n: Node, s: Status)
    requires Merging(g0, h0, j, g, es, ns)
    requires (n in h0.status && s == h0.status[n]) || (g0 == h0 && n in g.status && s == g.status[n])
    ensures Good(WithNode(g, n))
    ensures Merging(g0, h0, j, RaisedFrom(WithNode(g, n), n, s), es, ns - {n})
  {
    var m := WithNode(g, n);
    var w := RaisedFrom(m, n, s);
    WithNodeIsLeast(g, n);
    RaisedIsLeast(m, n, s);
    LessEqTrans(g, m, w);
    LessEqTrans(g0, g, w);
  }

  lemma MergingDone(g0: EscGraph, h0: EscGraph, g: EscGraph)
    requires Good(g0) && Good(h0) && Merging(g0, h0, Join(g0, h0), g, {}, {})
    ensures g == Join(g0, h0)
  {
    JoinIsLub(g0, h0);
    assert LessEq(h0, g);
    Antisymmetric(g, Join(g0, h0));
  }

  // The edges out of one node: an inner map of a graph, updated in place.  It
  // belongs to one node of one graph.
  class EdgeRow {
    ghost const graph: EscapeGraph
    ghost const src: Node
    var flags: map<Node, Flags>

    constructor (ghost graph: EscapeGraph, ghost src: Node, flags: map<Node, Flags>)
      ensures this.graph == graph && this.src == src && this.flags == flags
    {
      this.graph, this.src, this.flags := graph, src, flags;
    }
  }

  // The entries of a map with the given keys, one by one.
  method CopyEntries<V>(m: map<Node, V>, keep: set<Node>) returns (r: map<Node, V>)
    ensures r == map n | n in m && n in keep :: m[n]
  {
    r := map[];
    var rest := m.Keys;
    while rest != {}
      invariant rest <= m.Keys
      invariant r == map n | n in m && n in keep && n !in rest :: m[n]
    {
      var n :| n in rest;
      if n in keep {
        r := r[n := m[n]];
      }
      rest := rest - {n};
    }
  }

  class EscapeGraph {
    var edges: map<Node, EdgeRow>
    var status: map<Node, Status>
    ghost var rows: set<EdgeRow>  // the rows made for this graph
    ghost var contents: map<Node, map<Node, Flags>>  // what they hold

    // Every row belongs to its node and to this graph, so none is shared.
    ghost predicate Valid()
      reads this`edges, this`contents, this`rows, rows
    {
      && contents.Keys == edges.Keys
      && forall n :: n in edges ==> edges[n] in rows && Holds(n, edges[n])
    }

    ghost predicate Holds(n: Node, row: EdgeRow)
      reads this`contents, row
    {
      n in contents && row.flags == contents[n] && row.src == n && row.graph == this
    }

    ghost function Value(): EscGraph
      reads this`contents, this`status
    {
      EscGraph(contents, status)
    }

    // What the rows hold, read off them.
    function EdgeMap(): (m: map<Node, map<Node, Flags>>)
      requires Valid()
      reads this`edges, this`contents, this`rows, rows
      ensures m == contents
    {
      map n | n in edges :: edges[n].flags
    }

    function Pointees(src: Node): (ps: set<Node>)
      requires Valid()
      reads this, rows
      ensures ps == Succ(Flow(Value()), src)
    {
      if src in edges then edges[src].flags.Keys else {}
    }

    function Read(): (v: EscGraph)
      requires Valid()
      reads this, rows
      ensures v == Value()
    {
      EscGraph(EdgeMap(), status)
    }

    constructor ()
      ensures Valid() && rows == {} && Value() == EMPTY
    {
      edges, status, contents, rows := map[], map[], map[], {};
    }

    // Rows for gg with the contents of those of the nodes in keep.
    method CopyRows(keep: set<Node>, ghost gg: EscapeGraph) returns (copy: map<Node, EdgeRow>, ghost made: set<EdgeRow>)
      requires Valid()
      ensures copy.Keys == edges.Keys * keep && fresh(made)
      ensures forall n :: n in copy ==> copy[n] in made && copy[n].flags == contents[n] && copy[n].src == n && copy[n].graph == gg
    {
      copy, made := map[], {};
      var rest := edges.Keys;
      while rest != {}
        invariant rest <= edges.Keys && copy.Keys == (edges.Keys - rest) * keep && fresh(made)
        invariant forall n :: n in copy ==> copy[n] in made && copy[n].flags == contents[n] && copy[n].src == n && copy[n].graph == gg
      {
        var src :| src in rest;
        if src in keep {
          var flags := CopyEntries(edges[src].flags, edges[src].flags.Keys);
          var newOutEdges := new EdgeRow(gg, src, flags);
          copy, made := copy[src := newOutEdges], made + {newOutEdges};
        }
        rest := rest - {src};
      }
    }

    // A copy of the nodes in keep and their rows.
    method Copy(keep: set<Node>) returns (gg: EscapeGraph)
      requires Valid()
      ensures fresh(gg) && fresh(gg.rows) && gg.Valid() && gg.Value() == Restricted(Value(), keep)
    {
      gg := new EscapeGraph();
      ghost var made;
      gg.edges, made := CopyRows(keep, gg);
      gg.status := CopyEntries(status, keep);
      gg.rows := made;
      gg.contents := Restricted(Value(), keep).edges;
    }

    // A copy with rows of its own.
    method Clone() returns (gg: EscapeGraph)
      requires Valid()
      ensures fresh(gg) && fresh(gg.rows) && gg.Valid() && gg.Value() == Value()
    {
      gg := Copy(edges.Keys + status.Keys);
    }

    // Adds n with its intrinsic status unless it is there already.
    method AddNode(n: Node) returns (changed: bool)
      requires Valid()
      modifies this
      ensures Valid() && (forall r :: r in rows ==> r in old(rows) || fresh(r))
      ensures forall m :: m in old(edges) && m in old(status) ==> m in edges && edges[m] == old(edges)[m]
      ensures Value() == WithNode(old(Value()), n)
      ensures changed <==> n !in old(status)
      ensures changed ==> status[n] == if n.kind in {KindParam, KindLoad} then ESCAPED
                                       else if n.kind in {KindGlobal, KindUnknown} then LEAKED else LOCAL
    {
      if n !in status {
        var _ := NewRow(n, map[]);
        status := status[n := IntrinsicEscape(n)];
        return true;
      }
      return false;
    }

    // One step of the closure: raises the successors of a node popped from the
    // worklist that are below it, and returns them.
    method RaiseSuccessors(node: Node) returns (pushed: seq<Node>)
      requires Valid() && Shaped(Value()) && node in status
      modifies this`status
      ensures Raising(old(status), status, node, Succ(Flow(Value()), node), pushed)
    {
      pushed := [];
      ghost var st0 := status;
      var pending := Pointees(node);
      ghost var all, done: set<Node> := pending, {};
      SuccHaveStatus(Value(), node);
      while pending != {}
        invariant all <= st0.Keys && pending + done == all
        invariant Raising(st0, status, node, done, pushed)
      {
        var succ :| succ in pending;
        pushed := RaiseSuccessor(node, succ, pushed, st0, done);
        pending, done := pending - {succ}, done + {succ};
      }
      assert done == all;
    }

    method RaiseSuccessor(node: Node, succ: Node, pushed0: seq<Node>, ghost st0: map<Node, Status>, ghost done: set<Node>)
      returns (pushed: seq<Node>)
      requires Raising(st0, status, node, done, pushed0) && succ in status
      modifies this`status
      ensures Raising(st0, status, node, done + {succ}, pushed)
    {
      pushed := pushed0;
      RaisingStep(st0, status, node, done, pushed, succ);
      if status[node] > status[succ] {
        status := status[succ := status[node]];
        pushed := pushed + [succ];
      }
    }

    // Pushes the status of a to b and on along all paths from b.  Edges out of
    // a other than the one to b are the caller's business.
    method ComputeEdgeClosure(a: Node, b: Node)
      requires Valid() && OpenAt(Value(), a) && a in status && b in status
      modifies this`status
      ensures PushedOver(old(Value()), Value(), a, b)
    {
      ghost var before := Value();
      if status[a] > status[b] {
        status := status[b := status[a]];
      } else {
        return;
      }
      PushingStarts(before, Value(), a, b);
      PushFrom(before, a, b);
      PushingDone(before, Value(), a, b);
    }

    // The worklist of the closure.
    method PushFrom(ghost before: EscGraph, ghost a: Node, b: Node)
      requires Valid() && a in before.status && Pushing(before, Value(), a, b, before.status[a], [b])
      modifies this`status
      ensures Pushing(before, Value(), a, b, before.status[a], [])
    {
      var worklist := [b];
      while |worklist| > 0
        invariant Pushing(before, Value(), a, b, before.status[a], worklist)
        decreases Headroom(status), |worklist|
      {
        worklist := PushLast(before, a, b, worklist);
      }
    }

    // Takes the last node off the worklist and pushes its status on.
    method PushLast(ghost before: EscGraph, ghost a: Node, ghost b: Node, worklist0: seq<Node>) returns (worklist: seq<Node>)
      requires Valid() && a in before.status && |worklist0| > 0
      requires Pushing(before, Value(), a, b, before.status[a], worklist0)
      modifies this`status
      ensures Pushing(before, Value(), a, b, before.status[a], worklist)
      ensures Headroom(status) < Headroom(old(status)) || (status == old(status) && |worklist| < |worklist0|)
    {
      var node := worklist0[|worklist0| - 1];
      worklist := worklist0[..|worklist0| - 1];
      assert worklist0 == worklist + [node] && node in worklist0;
      ghost var mid := Value();
      var pushed := RaiseSuccessors(node);
      PushingSteps(before, mid, Value(), a, b, before.status[a], worklist, node, pushed);
      worklist := worklist + pushed;
    }

    // Sets the status of n to at least s.  A node the graph does not have gets
    // a status but no row of edges.
    method MergeNodeStatus(n: Node, s: Status)
      requires Valid() && Good(Value())
      modifies this`status
      ensures n in old(status) ==> Value() == RaisedFrom(old(Value()), n, s) && Good(Value())
      ensures n !in old(status) ==> Value() == old(Value()).(status := old(status)[n := s])
      ensures WellFormed(Value()) <==> n in old(status)
    {
      ghost var before := Value();
      if n !in status || s > status[n] {
        status := status[n := s];
      } else {
        RaisedAlready(before, n, s);
        return;
      }
      if n !in edges {
        return;
      }
      SpreadingStarts(before, n, s);
      PushToPointees(before, n, s);
      SpreadingDone(before, Value(), n, s);
    }

    // The loop of MergeNodeStatus: n has just been raised to s.
    method PushToPointees(ghost before: EscGraph, n: Node, s: Status)
      requires Valid() && Spreading(before, Value(), n, s, Succ(Flow(before), n))
      modifies this`status
      ensures Spreading(before, Value(), n, s, {})
    {
      var pending := Pointees(n);
      while pending != {}
        invariant Spreading(before, Value(), n, s, pending)
      {
        var pointee :| pointee in pending;
        PushToPointee(before, n, s, pending, pointee);
        pending := pending - {pointee};
      }
    }

    method PushToPointee(ghost before: EscGraph, n: Node, ghost s: Status, ghost pending: set<Node>, pointee: Node)
      requires Valid() && Spreading(before, Value(), n, s, pending) && pointee in pending
      modifies this`status
      ensures Spreading(before, Value(), n, s, pending - {pointee})
    {
      ghost var mid := Value();
      SpreadingOpen(before, mid, n, s, pending, pointee);
      ComputeEdgeClosure(n, pointee);
      SpreadingSteps(before, mid, Value(), n, s, pending, pointee);
    }

    // A new row for a node.
    method NewRow(n: Node, flags: map<Node, Flags>) returns (row: EdgeRow)
      requires Valid()
      modifies this`edges, this`contents, this`rows
      ensures Valid() && fresh(row) && rows == old(rows) + {row}
      ensures contents == old(contents)[n := flags] && edges == old(edges)[n := row]
    {
      row := new EdgeRow(this, n, flags);
      edges, contents, rows := edges[n := row], contents[n := flags], rows + {row};
    }

    // The row of a node, made along with the node if need be.
    method OutEdges(src: Node) returns (row: EdgeRow)
      requires Valid() && contents.Keys == status.Keys
      modifies this
      ensures Valid() && (forall r :: r in rows ==> r in old(rows) || fresh(r))
      ensures Value() == WithNode(old(Value()), src) && src in edges && edges[src] == row
    {
      if src !in edges {
        var _ := AddNode(src);
        row := NewRow(src, map[]);
      } else {
        row := edges[src];
      }
    }

    // Or-s flags into the row of src.
    method OrFlags(src: Node, dest: Node, row: EdgeRow, newFlag: Flags)
      requires Valid() && src in edges && edges[src] == row
      modifies row, this`contents
      ensures Valid() && Value() == WithFlags(old(Value()), src, dest, newFlag)
    {
      row.flags := row.flags[dest := (if dest in row.flags then row.flags[dest] else {}) + newFlag];
      contents := contents[src := row.flags];
    }

    // Adds both nodes and or-s in the flags.
    method InsertEdge(src: Node, dest: Node, newFlag: Flags)
      requires Valid() && Shaped(Value())
      modifies this, rows
      ensures Valid() && (forall r :: r in rows ==> r in old(rows) || fresh(r))
      ensures Value() == EdgeInserted(old(Value()), src, dest, newFlag)
    {
      var outEdges := OutEdges(src);
      var _ := AddNode(dest);
      OrFlags(src, dest, outEdges, newFlag);
    }

    // Adds the edge and restores closedness.
    method AddEdge(src: Node, dest: Node, newFlag: Flags) returns (changed: bool)
      requires Valid() && Good(Value())
      modifies this, rows
      ensures Valid() && (forall r :: r in rows ==> r in old(rows) || fresh(r))
      ensures Value() == WithEdge(old(Value()), src, dest, newFlag)
      ensures Good(Value()) <==> newFlag != {} || Arc(old(Value()), src, dest)
      ensures changed
    {
      ghost var before := Value();
      InsertEdge(src, dest, newFlag);
      CloseEdge(before, src, dest, newFlag);
      return true;
    }

    // Restores closedness after an edge has been inserted.
    method CloseEdge(ghost before: EscGraph, src: Node, dest: Node, ghost newFlag: Flags)
      requires Valid() && Good(before) && Value() == EdgeInserted(before, src, dest, newFlag)
      modifies this`status
      ensures Value() == WithEdge(before, src, dest, newFlag)
      ensures Good(Value()) <==> newFlag != {} || Arc(before, src, dest)
    {
      InsertedOpen(before, src, dest, newFlag);
      ComputeEdgeClosure(src, dest);
      EdgeClosed(before, Value(), src, dest, newFlag);
    }

    // The edges from src to dest (None stands for any node) whose kind is in mask.
    method Edges(src: Option<Node>, dest: Option<Node>, mask: Flags) returns (es: set<Edge>)
      requires Valid()
      ensures forall e :: e in es <==> HasEdge(Value(), e) && e.mask in mask
                                        && (src.Some? ==> e.src == src.value) && (dest.Some? ==> e.dest == dest.value)
    {
      es := {};
      var rows := if src.None? then edges.Keys else edges.Keys * {src.value};
      while rows != {}
        invariant rows <= edges.Keys
        invariant src.Some? ==> rows <= {src.value}
        invariant forall e :: e in es <==> HasEdge(Value(), e) && Selected(e, src, dest, mask) && e.src !in rows
      {
        var s :| s in rows;
        rows := rows - {s};
        var row := RowEdges(s, dest, mask);
        es := es + row;
      }
    }

    // The selected edges out of one node of the graph.
    method RowEdges(s: Node, dest: Option<Node>, mask: Flags) returns (es: set<Edge>)
      requires Valid() && s in edges
      ensures forall e :: e in es <==> e.src == s && HasEdge(Value(), e) && Selected(e, None, dest, mask)
    {
      es := {};
      var cols := edges[s].flags.Keys;
      while cols != {}
        invariant cols <= edges[s].flags.Keys
        invariant forall e :: (e in es <==>
                               e.src == s && HasEdge(Value(), e) && Selected(e, None, dest, mask) && e.dest !in cols)
      {
        var d :| d in cols;
        cols := cols - {d};
        if dest == None || dest == Some(d) {
          var kinds := edges[s].flags[d] * mask;
          ghost var before := es;
          if External in kinds { es := es + {Edge(s, d, External)}; }
          if Internal in kinds { es := es + {Edge(s, d, Internal)}; }
          if Subnode in kinds { es := es + {Edge(s, d, Subnode)}; }
          forall e ensures e in es <==> e in before || (e.src == s && e.dest == d && e.mask in kinds) {
            assert e == Edge(e.src, e.dest, e.mask);
            match e.mask
            case Internal =>
            case External =>
            case Subnode =>
          }
        }
      }
    }

    // Gives the graph the edges and statuses of v, in rows of its own.
    method Become(v: EscGraph)
      modifies this
      ensures Valid() && fresh(rows) && Value() == v
    {
      edges, status, contents, rows := map[], v.status, map[], {};
      var pending := v.edges.Keys;
      while pending != {}
        invariant Valid() && fresh(rows) && status == v.status
        invariant pending <= v.edges.Keys && contents == map n | n in v.edges && n !in pending :: v.edges[n]
      {
        var n :| n in pending;
        var _ := NewRow(n, v.edges[n]);
        pending := pending - {n};
      }
    }

    method FillRow(n: Node, row: EdgeRow, flags: map<Node, Flags>)
      requires Valid() && n in edges && edges[n] == row
      modifies row, this`contents
      ensures Valid() && contents == old(contents)[n := flags]
    {
      row.flags := flags;
      contents := contents[n := flags];
    }

    method Matches(h: EscapeGraph) returns (same: bool)
      requires Valid() && h.Valid()
      ensures same <==> Value() == h.Value()
    {
      if status != h.status {
        return false;
      }
      if EdgeMap() != h.EdgeMap() {
        return false;
      }
      return true;
    }

    // Decides the order of the framework.
    method LessEqual(h: EscapeGraph) returns (isLessEq: bool)
      requires Valid() && h.Valid()
      ensures isLessEq <==> LessEq(Value(), h.Value())
    {
      var es := EdgeList();
      while es != {}
        invariant forall e :: e in es ==> HasEdge(Value(), e)
        invariant forall e :: HasEdge(Value(), e) && e !in es ==> HasEdge(h.Value(), e)
      {
        var e :| e in es;
        es := es - {e};
        var found := h.Edges(Some(e.src), Some(e.dest), {e.mask});
        if found == {} {
          assert HasEdge(Value(), e) && e !in found;
          return false;
        }
        var f :| f in found;
        assert f == e;
      }
      var nodes := status.Keys;
      while nodes != {}
        invariant nodes <= status.Keys
        invariant forall n :: n in status && n !in nodes ==> n in h.status && status[n] <= h.status[n]
      {
        var n :| n in nodes;
        nodes := nodes - {n};
        if n !in h.status || status[n] > h.status[n] {
          return false;
        }
      }
      return true;
    }

    // Joins h into this graph.
    method Merge(h: EscapeGraph)
      requires Valid() && h.Valid() && Good(Value()) && Good(h.Value())
      modifies this, rows
      ensures Valid() && (forall r :: r in rows ==> r in old(rows) || fresh(r))
      ensures Good(Value()) && Value() == Join(old(Value()), old(h.Value()))
    {
      ghost var g0, h0 := Value(), h.Value();
      ghost var j := Join(g0, h0);
      JoinIsLub(g0, h0);
      var es := h.EdgeList();
      MergeEdges(es, g0, h0, j);
      MergeStatuses(h, g0, h0, j);
      MergingDone(g0, h0, Value());
    }

    // All edges.
    method EdgeList() returns (es: set<Edge>)
      requires Valid()
      ensures forall e :: e in es <==> HasEdge(Value(), e)
    {
      AllKinds();
      es := Edges(None, None, EDGE_ALL);
    }

    // The first loop of Merge.
    method MergeEdges(es: set<Edge>, ghost g0: EscGraph, ghost h0: EscGraph, ghost j: EscGraph)
      requires Valid() && Merging(g0, h0, j, Value(), es, h0.status.Keys) && forall e :: e in es ==> HasEdge(h0, e)
      modifies this, rows
      ensures Valid() && (forall r :: r in rows ==> r in old(rows) || fresh(r))
      ensures Merging(g0, h0, j, Value(), {}, h0.status.Keys)
    {
      var pending := es;
      while pending != {}
        invariant Valid() && (forall r :: r in rows ==> r in old(rows) || fresh(r))
        invariant pending <= es && Merging(g0, h0, j, Value(), pending, h0.status.Keys)
      {
        var e :| e in pending;
        MergingEdge(g0, h0, j, Value(), pending, h0.status.Keys, e);
        var _ := AddEdge(e.src, e.dest, {e.mask});
        pending := pending - {e};
      }
    }

    // The second loop of Merge.
    method MergeStatuses(h: EscapeGraph, ghost g0: EscGraph, ghost h0: EscGraph, ghost j: EscGraph)
      requires Valid() && Merging(g0, h0, j, Value(), {}, h0.status.Keys)
      requires if h == this then g0 == h0 else h.status == h0.status
      modifies this
      ensures Valid() && (forall r :: r in rows ==> r in old(rows) || fresh(r))
      ensures Merging(g0, h0, j, Value(), {}, {})
    {
      var pending := h.status.Keys;
      while pending != {}
        invariant Valid() && (forall r :: r in rows ==> r in old(rows) || fresh(r))
        invariant h != this ==> h.status == h0.status
        invariant Merging(g0, h0, j, Value(), {}, pending) && pending <= h.status.Keys
      {
        var n :| n in pending;
        MergeStatus(n, h.status[n], pending, g0, h0, j);
        pending := pending - {n};
      }
    }

    method MergeStatus(n: Node, s: Status, ghost pending: set<Node>, ghost g0: EscGraph, ghost h0: EscGraph, ghost j: EscGraph)
      requires Valid() && Merging(g0, h0, j, Value(), {}, pending)
      requires (n in h0.status && s == h0.status[n]) || (g0 == h0 && n in status && s == status[n])
      modifies this
      ensures Valid() && (forall r :: r in rows ==> r in old(rows) || fresh(r)) && old(status).Keys <= status.Keys
      ensures Merging(g0, h0, j, Value(), {}, pending - {n})
    {
      MergingNode(g0, h0, j, Value(), {}, pending, n, s);
      AddWithStatus(n, s);
    }

    // Adds a node and raises it to at least s.
    method AddWithStatus(n: Node, s: Status)
      requires Valid() && Good(Value())
      modifies this
      ensures Valid() && (forall r :: r in rows ==> r in old(rows) || fresh(r))
      ensures Value() == RaisedFrom(WithNode(old(Value()), n), n, s)
    {
      WithNodeIsLeast(Value(), n);
      var _ := AddNode(n);
      MergeNodeStatus(n, s);
    }

    // The successors of n that are not in seen yet, each once.
    method Unseen(n: Node, seen: set<Node>) returns (pushed: seq<Node>)
      requires Valid()
      ensures forall d :: d in pushed <==> d in Succ(Flow(Value()), n) && d !in seen
    {
      pushed := [];
      var pending := Pointees(n);
      assert pending == Succ(Flow(Value()), n);
      ghost var all := pending;
      while pending != {}
        invariant pending <= all
        invariant forall d :: d in pushed <==> d in all - pending && d !in seen
      {
        var d :| d in pending;
        pending := pending - {d};
        if d !in seen {
          pushed := pushed + [d];
        }
      }
    }

    // The nodes some path leads to from a root, found with a worklist.
    method ReachableFrom(roots: seq<Node>) returns (reachable: set<Node>)
      requires Valid() && WellFormed(Value())
      ensures forall n :: n in reachable <==> FromRoots(Value(), roots, n)
    {
      reachable := {};
      var worklist: seq<Node> := [];
      for i := 0 to |roots|
        invariant forall n :: n in reachable <==> n in roots[..i]
        invariant worklist == roots[..i]
      {
        reachable := reachable + {roots[i]};
        worklist := worklist + [roots[i]];
      }
      SearchStarts(Value(), roots, reachable);
      while |worklist| > 0
        invariant Searching(Value(), roots, reachable, worklist)
        decreases status.Keys - reachable, |worklist|
      {
        var n := worklist[|worklist| - 1];
        assert worklist == worklist[..|worklist| - 1] + [n];
        worklist := worklist[..|worklist| - 1];
        var pushed := Unseen(n, reachable);
        SearchSteps(Value(), roots, reachable, worklist, n, pushed);
        reachable := reachable + (set d | d in pushed);
        worklist := worklist + pushed;
      }
      SearchDone(Value(), roots, reachable);
    }

    // A copy of the part of this graph that can be reached from the roots.
    method CloneReachable(roots: seq<Node>) returns (gg: EscapeGraph)
      requires Valid() && Good(Value())
      ensures fresh(gg) && fresh(gg.rows) && gg.Valid() && Good(gg.Value()) && gg.Value() == ReachablePart(Value(), roots)
    {
      var reachable := ReachableFrom(roots);
      gg := Copy(reachable);
      FromRootsClosed(Value(), roots, reachable);
      RestrictedIsGood(Value(), reachable);
      RestrictedToReachable(Value(), roots, reachable);
    }

    // A call whose callee is not known: everything the arguments point to leaks,
    // and the results may point to an unknown object.  Nothing else is added.
    method CallUnknown(args: seq<Node>, rets: seq<Node>, unknownReturn: Node)
      requires Valid() && Good(Value())
      modifies this, rows
      ensures Valid() && (forall r :: r in rows ==> r in old(rows) || fresh(r))
      ensures Good(Value()) && LessEq(old(Value()), Value()) && CalledUnknown(old(Value()), Value(), args, rets, unknownReturn)
      ensures forall k :: (Good(k) && LessEq(old(Value()), k) && CalledUnknown(old(Value()), k, args, rets, unknownReturn)
                           ==> LessEq(Value(), k))
    {
      ghost var g0 := Value();
      LeakArgs(g0, args, rets, unknownReturn);
      for i := 0 to |rets|
        invariant Valid() && (forall r :: r in rows ==> r in old(rows) || fresh(r))
        invariant Calling(g0, Value(), args, rets, unknownReturn)
        invariant CalledUnknown(g0, Value(), args, rets[..i], unknownReturn)
      {
        CallingRet(g0, Value(), args, rets, unknownReturn, i);
        var _ := AddEdge(rets[i], unknownReturn, {Internal});
      }
      assert rets[..|rets|] == rets;
    }

    // The loop of CallUnknown over the arguments.
    method LeakArgs(ghost g0: EscGraph, args: seq<Node>, ghost rets: seq<Node>, ghost unknownReturn: Node)
      requires Valid() && Value() == g0 && Good(g0)
      modifies this`status
      ensures Calling(g0, Value(), args, rets, unknownReturn)
      ensures CalledUnknown(g0, Value(), args, [], unknownReturn)
    {
      for i := 0 to |args|
        invariant Calling(g0, Value(), args, rets, unknownReturn) && Value().edges == g0.edges
        invariant CalledUnknown(g0, Value(), args[..i], [], unknownReturn)
      {
        ghost var mid := Value();
        LeakPointees(g0, args, rets, unknownReturn, args[i]);
        CallingArg(g0, mid, Value(), args, unknownReturn, i);
      }
      assert args[..|args|] == args;
    }

    // The inner loop, over the pointees of one argument.
    method LeakPointees(ghost g0: EscGraph, ghost args: seq<Node>, ghost rets: seq<Node>, ghost unknownReturn: Node, arg: Node)
      requires Valid() && Calling(g0, Value(), args, rets, unknownReturn) && Value().edges == g0.edges && arg in args
      modifies this`status
      ensures Calling(g0, Value(), args, rets, unknownReturn) && LessEq(old(Value()), Value())
      ensures forall n :: Arc(g0, arg, n) ==> n in status && status[n] == LEAKED
    {
      ghost var mid := Value();
      var pending := Pointees(arg);
      while pending != {}
        invariant Leaking(g0, mid, Value(), args, rets, unknownReturn, arg, pending)
      {
        var n :| n in pending;
        LeakPointee(g0, mid, args, rets, unknownReturn, arg, pending, n);
        pending := pending - {n};
      }
    }

    method LeakPointee(ghost g0: EscGraph, ghost mid: EscGraph, ghost args: seq<Node>, ghost rets: seq<Node>,
                       ghost unknownReturn: Node, ghost arg: Node, ghost pending: set<Node>, n: Node)
      requires Valid() && Leaking(g0, mid, Value(), args, rets, unknownReturn, arg, pending) && n in pending
      modifies this`status
      ensures Leaking(g0, mid, Value(), args, rets, unknownReturn, arg, pending - {n})
    {
      LeakingStep(g0, mid, Value(), args, rets, unknownReturn, arg, pending, n);
      MergeNodeStatus(n, LEAKED);
    }
  }

  // A row belongs to one node of one graph: writing into it changes no other.
  lemma RowsApart(g: EscapeGraph, h: EscapeGraph, m: Node, n: Node)
    requires g.Valid() && h.Valid() && m in g.edges && n in h.edges
    ensures g.edges[m] == h.edges[n] <==> g == h && m == n
  {
    assert g.Holds(m, g.edges[m]) && h.Holds(n, h.edges[n]);
  }

  // ------------------------------------------------------------ worklist search

  ghost predicate Searching(g: EscGraph, roots: seq<Node>, reachable: set<Node>, worklist: seq<Node>) {
    && (forall r :: r in roots ==> r in reachable)
    && (forall n :: n in worklist ==> n in reachable)
    && (forall n :: n in reachable ==> FromRoots(g, roots, n))
    && (forall x :: x in reachable && x !in worklist ==> Succ(Flow(g), x) <= reachable)
  }

  lemma SearchStarts(g: EscGraph, roots: seq<Node>, reachable: set<Node>)
    requires forall n :: n in reachable <==> n in roots
    ensures Searching(g, roots, reachable, roots)
  {
    forall n | n in reachable ensures FromRoots(g, roots, n) {
      ReachRefl(Flow(g), n);
    }
  }

  lemma FromRootsStep(g: EscGraph, roots: seq<Node>, n: Node, d: Node)
    requires FromRoots(g, roots, n) && d in Succ(Flow(g), n)
    ensures FromRoots(g, roots, d)
  {
    var r :| r in roots && Reach(Flow(g), r, n);
    ReachSnoc(Flow(g), r, n, d);
  }

  lemma SearchSteps(g: EscGraph, roots: seq<Node>, reachable: set<Node>, worklist: seq<Node>, n: Node, pushed: seq<Node>)
    requires WellFormed(g) && Searching(g, roots, reachable, worklist + [n])
    requires forall d :: d in pushed <==> d in Succ(Flow(g), n) && d !in reachable
    ensures Searching(g, roots, reachable + (set d | d in pushed), worklist + pushed)
    ensures pushed != [] ==> g.status.Keys - (reachable + (set d | d in pushed)) < g.status.Keys - reachable
  {
    assert n in worklist + [n];
    var more := set d | d in pushed;
    SuccHaveStatus(g, n);
    forall d | d in more ensures FromRoots(g, roots, d) {
      FromRootsStep(g, roots, n, d);
    }
    forall x | x in reachable + more && x !in worklist + pushed ensures Succ(Flow(g), x) <= reachable + more {
      SearchedStays(g, reachable, worklist, n, pushed, x);
    }
    if pushed != [] {
      var d := pushed[0];
      assert d in pushed && d in g.status.Keys - reachable && d !in g.status.Keys - (reachable + more);
    }
  }

  lemma SearchedStays(g: EscGraph, reachable: set<Node>, worklist: seq<Node>, n: Node, pushed: seq<Node>, x: Node)
    requires x in reachable && x !in worklist + [n] ==> Succ(Flow(g), x) <= reachable
    requires forall d :: d in pushed <==> d in Succ(Flow(g), n) && d !in reachable
    requires x in reachable + (set d | d in pushed) && x !in worklist + pushed
    ensures Succ(Flow(g), x) <= reachable + (set d | d in pushed)
  {
    assert x == n || (x in reachable && x !in worklist + [n]);
  }

  lemma FromRootsClosed(g: EscGraph, roots: seq<Node>, reachable: set<Node>)
    requires forall n :: n in reachable <==> FromRoots(g, roots, n)
    ensures Closed(Flow(g), reachable)
  {
    forall n, d | n in reachable && d in Succ(Flow(g), n) ensures d in reachable {
      FromRootsStep(g, roots, n, d);
    }
  }

  lemma SearchDone(g: EscGraph, roots: seq<Node>, reachable: set<Node>)
    requires Searching(g, roots, reachable, [])
    ensures forall n :: n in reachable <==> FromRoots(g, roots, n)
  {
    forall n | FromRoots(g, roots, n) ensures n in reachable {
      var r :| r in roots && Reach(Flow(g), r, n);
      ReachStays(Flow(g), reachable, r, n);
    }
  }

  // ------------------------------------------------------------ unknown calls

  // g is above g0 and below every closed graph that records the call.
  ghost predicate Calling(g0: EscGraph, g: EscGraph, args: seq<Node>, rets: seq<Node>, u: Node) {
    && Good(g) && LessEq(g0, g)
    && forall k :: Good(k) && LessEq(g0, k) && CalledUnknown(g0, k, args, rets, u) ==> LessEq(g, k)
  }

  // The pointees of one argument are being leaked, starting from mid: those of
  // pending may be missing.
  ghost predicate Leaking(g0: EscGraph, mid: EscGraph, g: EscGraph, args: seq<Node>, rets: seq<Node>, u: Node,
                          arg: Node, pending: set<Node>)
  {
    && Calling(g0, g, args, rets, u) && LessEq(mid, g)
    && arg in args && g.edges == g0.edges
    && (forall n :: n in pending ==> Arc(g0, arg, n))
    && (forall n :: Arc(g0, arg, n) && n !in pending ==> n in g.status && g.status[n] == LEAKED)
  }

  lemma LeakingStep(g0: EscGraph, mid: EscGraph, g: EscGraph, args: seq<Node>, rets: seq<Node>, u: Node,
                    arg: Node, pending: set<Node>, n: Node)
    requires Leaking(g0, mid, g, args, rets, u, arg, pending) && n in pending
    ensures n in g.status && Leaking(g0, mid, RaisedFrom(g, n, LEAKED), args, rets, u, arg, pending - {n})
  {
    assert Arc(g, arg, n);
    RaisedIsLeast(g, n, LEAKED);
    var w := RaisedFrom(g, n, LEAKED);
    LessEqTrans(g0, g, w);
    LessEqTrans(mid, g, w);
  }

  lemma CallingArg(g0: EscGraph, g: EscGraph, h: EscGraph, args: seq<Node>, u: Node, i: nat)
    requires i < |args| && LessEq(g, h) && CalledUnknown(g0, g, args[..i], [], u)
    requires forall n :: Arc(g0, args[i], n) ==> n in h.status && h.status[n] == LEAKED
    ensures CalledUnknown(g0, h, args[..i + 1], [], u)
  {
    assert args[..i + 1] == args[..i] + [args[i]];
  }

  lemma CallingRet(g0: EscGraph, g: EscGraph, args: seq<Node>, rets: seq<Node>, u: Node, i: nat)
    requires Calling(g0, g, args, rets, u) && i < |rets| && CalledUnknown(g0, g, args, rets[..i], u)
    ensures var w := WithEdge(g, rets[i], u, {Internal});
      Calling(g0, w, args, rets, u) && CalledUnknown(g0, w, args, rets[..i + 1], u)
  {
    var w := WithEdge(g, rets[i], u, {Internal});
    WithEdgeIsLeast(g, rets[i], u, {Internal});
    LessEqTrans(g0, g, w);
    RetRecorded(g0, g, w, args, rets, u, i);
    forall k | Good(k) && LessEq(g0, k) && CalledUnknown(g0, k, args, rets, u) ensures LessEq(w, k) {
      assert HasEdge(k, Edge(rets[i], u, Internal));
    }
  }

  lemma RetRecorded(g0: EscGraph, g: EscGraph, w: EscGraph, args: seq<Node>, rets: seq<Node>, u: Node, i: nat)
    requires i < |rets| && CalledUnknown(g0, g, args, rets[..i], u)
    requires LessEq(g, w) && HasEdge(w, Edge(rets[i], u, Internal))
    ensures CalledUnknown(g0, w, args, rets[..i + 1], u)
  {
    assert rets[..i + 1] == rets[..i] + [rets[i]];
  }

  predicate Selected(e: Edge, src: Option<Node>, dest: Option<Node>, mask: Flags) {
    (src == None || src == Some(e.src)) && (dest == None || dest == Some(e.dest)) && e.mask in mask
  }

  ghost predicate FromRoots(g: EscGraph, roots: seq<Node>, n: Node) {
    exists r :: r in roots && Reach(Flow(g), r, n)
  }

  function Restricted(g: EscGraph, keep: set<Node>): EscGraph {
    EscGraph(map a | a in g.edges && a in keep :: g.edges[a], map n | n in g.status && n in keep :: g.status[n])
  }

  ghost function ReachablePart(g: EscGraph, roots: seq<Node>): EscGraph {
    Restricted(g, set n | n in g.status && FromRoots(g, roots, n))
  }

  // What is reachable from the roots is there as it was in g, and nothing else.
  lemma ReachablePartIs(g: EscGraph, roots: seq<Node>)
    requires Good(g)
    ensures var r := ReachablePart(g, roots);
      && (forall n :: n in roots && n in g.status ==> n in r.status)
      && (forall a, b :: a in r.status && Arc(g, a, b) ==> b in r.status)
      && (forall n :: n in r.status <==> n in g.status && exists a :: a in roots && Reach(Flow(g), a, n))
      && (forall n :: n in r.status ==> r.status[n] == g.status[n])
      && (forall e :: HasEdge(r, e) <==> HasEdge(g, e) && e.src in r.status)
  {
    var r := ReachablePart(g, roots);
    forall n | n in roots && n in g.status ensures n in r.status {
      ReachRefl(Flow(g), n);
      assert FromRoots(g, roots, n);
    }
    forall a, b | a in r.status && Arc(g, a, b) ensures b in r.status {
      FromRootsStep(g, roots, a, b);
    }
    forall n ensures n in r.status <==> n in g.status && exists a :: a in roots && Reach(Flow(g), a, n) {
      assert n in r.status <==> n in g.status && FromRoots(g, roots, n);
    }
  }

  lemma RestrictedToReachable(g: EscGraph, roots: seq<Node>, keep: set<Node>)
    requires WellFormed(g) && forall n :: n in keep <==> FromRoots(g, roots, n)
    ensures Restricted(g, keep) == ReachablePart(g, roots)
  {
  }

  lemma RestrictedIsGood(g: EscGraph, keep: set<Node>)
    requires Good(g) && Closed(Flow(g), keep)
    ensures Good(Restricted(g, keep)) && LessEq(Restricted(g, keep), g)
  {
    var r := Restricted(g, keep);
    forall a, b | Arc(r, a, b) ensures b in r.status && r.edges[a][b] != {} && r.status[a] <= r.status[b] {
      assert Arc(g, a, b);
      assert b in Succ(Flow(g), a);
    }
    forall e | HasEdge(r, e) ensures HasEdge(g, e) {}
  }

  // k records the call: what the arguments point to in g has leaked.
  ghost predicate CalledUnknown(g: EscGraph, k: EscGraph, args: seq<Node>, rets: seq<Node>, unknownReturn: Node) {
    && (forall a, n :: a in args && Arc(g, a, n) ==> n in k.status && k.status[n] == LEAKED)
    && (forall r :: r in rets ==> HasEdge(k, Edge(r, unknownReturn, Internal)))
  }
}
