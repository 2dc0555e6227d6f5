// Trimming a function summary: load nodes that carry no information are
// removed, as long as nothing they lead to has to stay.
module SummarySimplifier {
  import opened Options
  import opened Paths
  import opened EscapeLattice
  import opened EscapeGraphs

  // A load node that may go if everything it reaches may go as well.
  // subnodes are the nodes that have a parent.
  ghost predicate Candidate(g: EscGraph, subnodes: set<Node>, n: Node) {
    && n in g.status && n.kind == KindLoad
    && (g.status[n] == ESCAPED || (g.status[n] == LEAKED && n in subnodes))
    && (forall d :: !HasEdge(g, Edge(n, d, Internal)))
    && (forall s :: !HasEdge(g, Edge(s, n, Internal)))
    && (forall s :: HasEdge(g, Edge(s, n, Subnode)) ==> StatusOf(g, s) == g.status[n])
  }

  // n reaches no node outside c.
  ghost predicate ReachesOnly(g: EscGraph, c: set<Node>, n: Node) {
    forall m :: Reach(Flow(g), n, m) ==> m in c
  }

  ghost predicate Removable(g: EscGraph, subnodes: set<Node>, n: Node) {
    forall m :: Reach(Flow(g), n, m) ==> Candidate(g, subnodes, m)
  }

  function WithoutNodes(g: EscGraph, c: set<Node>): EscGraph {
    EscGraph(map a | a in g.edges && a !in c :: g.edges[a] - c, g.status - c)
  }

  // Leaked nodes keep only what is more than an internal edge.
  function WithoutLeakedEdges(g: EscGraph): EscGraph {
    g.(edges := map a | a in g.edges :: if StatusOf(g, a) == LEAKED then NotOnlyInternal(g.edges[a]) else g.edges[a])
  }

  function NotOnlyInternal(row: map<Node, Flags>): map<Node, Flags> {
    map b | b in row && row[b] != {Internal} :: row[b]
  }

  // ------------------------------------------------------------ properties

  // Nodes that reach only nodes of c form a closed set.
  lemma ReachesOnlyClosed(g: EscGraph, c: set<Node>, r: set<Node>)
    requires forall n :: n in r <==> n in c && ReachesOnly(g, c, n)
    ensures Closed(Flow(g), r)
  {
    forall n, d | n in r && d in Succ(Flow(g), n) ensures d in r {
      ReachEdge(Flow(g), n, d);
      forall m | Reach(Flow(g), d, m) ensures m in c {
        ReachCons(Flow(g), n, d, m);
      }
    }
  }

  // Removing a closed set of nodes leaves a well-formed, closed graph in which
  // every kept node has its old status.
  lemma WithoutNodesIsGood(g: EscGraph, c: set<Node>)
    requires Good(g)
    ensures Good(WithoutNodes(g, c)) && LessEq(WithoutNodes(g, c), g)
    ensures forall n :: n in g.status && n !in c ==> n in WithoutNodes(g, c).status && WithoutNodes(g, c).status[n] == g.status[n]
  {
    var r := WithoutNodes(g, c);
    forall a, b | Arc(r, a, b) ensures b in r.status && r.edges[a][b] != {} && r.status[a] <= r.status[b] {
      assert Arc(g, a, b);
    }
    forall e | HasEdge(r, e) ensures HasEdge(g, e) {}
  }

  lemma WithoutLeakedEdgesIsGood(g: EscGraph)
    requires Good(g)
    ensures Good(WithoutLeakedEdges(g)) && LessEq(WithoutLeakedEdges(g), g)
  {
    var r := WithoutLeakedEdges(g);
    forall a, b | Arc(r, a, b) ensures b in r.status && r.edges[a][b] != {} && r.status[a] <= r.status[b] {
      assert Arc(g, a, b);
    }
    forall e | HasEdge(r, e) ensures HasEdge(g, e) {}
  }

  // No path between two kept nodes is lost by removing a closed set of nodes:
  // a path that enters the set never comes back.
  lemma KeptPaths(g: EscGraph, c: set<Node>, a: Node, b: Node)
    requires Closed(Flow(g), c) && a !in c && b !in c
    ensures Reach(Flow(g), a, b) <==> Reach(Flow(WithoutNodes(g, c)), a, b)
  {
    var f, f' := Flow(g), Flow(WithoutNodes(g, c));
    if Reach(f, a, b) {
      var p :| Joins(f, p, a, b);
      forall i | 0 <= i < |p| ensures p[i] !in c {
        if p[i] in c {
          assert Joins(f, p[i..], p[i], b);
          PathStays(f, c, p[i..]);
        }
      }
      assert Joins(f', p, a, b);
    }
    if Reach(f', a, b) {
      ReachMono(f', f, a, b);
    }
  }

  // ------------------------------------------------------------ not monotone

  ghost function RemovableNodes(g: EscGraph, subnodes: set<Node>): set<Node> {
    set n | n in g.status && Removable(g, subnodes, n)
  }

  // The nodes of c may go together: load nodes that have escaped, or leaked as
  // somebody's subnode; no edge leads out of c, none into or out of it is
  // internal, and its parents have the same status.
  ghost predicate MayGo(g: EscGraph, subnodes: set<Node>, c: set<Node>) {
    && (forall n :: n in c ==> n in g.status && n.kind == KindLoad)
    && (forall n :: n in c && n in g.status ==> g.status[n] == ESCAPED || (g.status[n] == LEAKED && n in subnodes))
    && (forall e :: HasEdge(g, e) && e.src in c ==> e.dest in c && e.mask != Internal)
    && (forall e :: HasEdge(g, e) && e.dest in c ==>
          e.mask != Internal && (e.mask == Subnode ==> StatusOf(g, e.src) == StatusOf(g, e.dest)))
  }

  lemma MayGoIsCandidate(g: EscGraph, subnodes: set<Node>, c: set<Node>, n: Node)
    requires MayGo(g, subnodes, c) && n in c
    ensures Candidate(g, subnodes, n)
  {
    forall d ensures !HasEdge(g, Edge(n, d, Internal)) {
      assert Edge(n, d, Internal).src == n && Edge(n, d, Internal).mask == Internal;
    }
    forall s ensures !HasEdge(g, Edge(s, n, Internal)) {
      assert Edge(s, n, Internal).dest == n && Edge(s, n, Internal).mask == Internal;
    }
    forall s | HasEdge(g, Edge(s, n, Subnode)) ensures StatusOf(g, s) == g.status[n] {
      assert Edge(s, n, Subnode).dest == n && Edge(s, n, Subnode).mask == Subnode;
    }
  }

  lemma MayGoIsClosed(g: EscGraph, subnodes: set<Node>, c: set<Node>)
    requires WellFormed(g) && MayGo(g, subnodes, c)
    ensures Closed(Flow(g), c)
  {
    forall n, d | n in c && d in Succ(Flow(g), n) ensures d in c {
      assert Arc(g, n, d);
      var k :| k in g.edges[n][d];
      assert HasEdge(g, Edge(n, d, k));
    }
  }

  lemma RemovableMayGo(g: EscGraph, subnodes: set<Node>)
    requires WellFormed(g)
    ensures MayGo(g, subnodes, RemovableNodes(g, subnodes))
  {
    var c := RemovableNodes(g, subnodes);
    forall n | n in c ensures Candidate(g, subnodes, n) {
      ReachRefl(Flow(g), n);
    }
    forall e | HasEdge(g, e) && e.src in c ensures e.dest in c && e.mask != Internal {
      assert e == Edge(e.src, e.dest, e.mask);
      EdgeEnds(g, e);
      ReachEdge(Flow(g), e.src, e.dest);
      RemovableAlong(g, subnodes, e.src, e.dest);
    }
    forall e | HasEdge(g, e) && e.dest in c
      ensures e.mask != Internal && (e.mask == Subnode ==> StatusOf(g, e.src) == StatusOf(g, e.dest))
    {
      assert e == Edge(e.src, e.dest, e.mask);
    }
  }

  // The removed nodes are the greatest set of nodes that may go together.
  lemma RemovableIsGreatest(g: EscGraph, subnodes: set<Node>)
    requires WellFormed(g)
    ensures MayGo(g, subnodes, RemovableNodes(g, subnodes))
    ensures forall c :: MayGo(g, subnodes, c) ==> c <= RemovableNodes(g, subnodes)
  {
    RemovableMayGo(g, subnodes);
    forall c | MayGo(g, subnodes, c) ensures c <= RemovableNodes(g, subnodes) {
      MayGoIsClosed(g, subnodes, c);
      ClosedHoldsReach(Flow(g), c);
      forall n | n in c ensures Candidate(g, subnodes, n) {
        MayGoIsCandidate(g, subnodes, c, n);
      }
    }
  }

  // The summary that is left of g.
  ghost function Simplified(g: EscGraph, subnodes: set<Node>): EscGraph {
    WithoutLeakedEdges(WithoutNodes(g, RemovableNodes(g, subnodes)))
  }

  // The edge goes out of a leaked node and is internal only.
  ghost predicate DropsEdge(g: EscGraph, a: Node, b: Node) {
    Arc(g, a, b) && StatusOf(g, a) == LEAKED && g.edges[a][b] == {Internal}
  }

  lemma SimplifiedEdge(g: EscGraph, subnodes: set<Node>, e: Edge)
    requires Good(g)
    ensures var gone := RemovableNodes(g, subnodes);
      HasEdge(Simplified(g, subnodes), e) <==>
      HasEdge(g, e) && e.src !in gone && e.dest !in gone && !DropsEdge(g, e.src, e.dest)
  {
    var w := WithoutNodes(g, RemovableNodes(g, subnodes));
    assert HasEdge(w, e) ==> Arc(g, e.src, e.dest) && w.edges[e.src][e.dest] == g.edges[e.src][e.dest];
  }

  // Where h removes a node, g has subnode edges into it only from nodes of the
  // same status.
  ghost predicate SubnodesAgree(g: EscGraph, h: EscGraph, subnodes: set<Node>) {
    forall s, m :: m in RemovableNodes(h, subnodes) && HasEdge(g, Edge(s, m, Subnode)) ==> StatusOf(g, s) == StatusOf(g, m)
  }

  // Where h drops an edge of g, its source has leaked in g already.
  ghost predicate LeaksAgree(g: EscGraph, h: EscGraph) {
    forall a, b :: Arc(g, a, b) && DropsEdge(h, a, b) ==> StatusOf(g, a) == LEAKED
  }

  // What is left: every other node with its status, and the edges between them
  // but for those that are internal only and start in a leaked node.
  lemma SimplifiedIs(g: EscGraph, subnodes: set<Node>)
    requires Good(g)
    ensures var s, gone := Simplified(g, subnodes), RemovableNodes(g, subnodes);
      && (forall n :: n in s.status <==> n in g.status && n !in gone)
      && (forall n :: n in s.status ==> s.status[n] == g.status[n])
      && (forall e :: HasEdge(s, e) <==>
            HasEdge(g, e) && e.src !in gone && e.dest !in gone && !(g.status[e.src] == LEAKED && g.edges[e.src][e.dest] == {Internal}))
  {
    forall e ensures HasEdge(Simplified(g, subnodes), e) <==>
      HasEdge(g, e) && e.src !in RemovableNodes(g, subnodes) && e.dest !in RemovableNodes(g, subnodes)
      && !(g.status[e.src] == LEAKED && g.edges[e.src][e.dest] == {Internal})
    {
      SimplifiedEdge(g, subnodes, e);
    }
  }

  // Of two ordered graphs the simplified ones are ordered exactly if the greater
  // graph removes no node that has a subnode edge from a node of another status
  // in the smaller one, and drops no edge whose source has not leaked there.
  lemma SimplifiedMonotoneIff(g: EscGraph, h: EscGraph, subnodes: set<Node>)
    requires Good(g) && Good(h) && LessEq(g, h)
    ensures LessEq(Simplified(g, subnodes), Simplified(h, subnodes)) <==> SubnodesAgree(g, h, subnodes) && LeaksAgree(g, h)
  {
    if SubnodesAgree(g, h, subnodes) && LeaksAgree(g, h) {
      SimplifiedMono(g, h, subnodes);
    }
    if LessEq(Simplified(g, subnodes), Simplified(h, subnodes)) {
      OrderedSubnodesAgree(g, h, subnodes);
      OrderedLeaksAgree(g, h, subnodes);
    }
  }

  // The kind of a node keeps its status off LOCAL, and h has all edges of g, so
  // only a subnode edge can disqualify in g what qualifies in h.
  lemma CandidateBelow(g: EscGraph, h: EscGraph, subnodes: set<Node>, m: Node)
    requires Good(g) && Good(h) && LessEq(g, h) && m in g.status && Candidate(h, subnodes, m)
    requires forall s :: HasEdge(g, Edge(s, m, Subnode)) ==> StatusOf(g, s) == StatusOf(g, m)
    ensures Candidate(g, subnodes, m)
  {
    assert IntrinsicEscape(m) == ESCAPED;
  }

  lemma RemovableBelow(g: EscGraph, h: EscGraph, subnodes: set<Node>, n: Node)
    requires Good(g) && Good(h) && LessEq(g, h) && SubnodesAgree(g, h, subnodes)
    requires n in g.status && n in RemovableNodes(h, subnodes)
    ensures n in RemovableNodes(g, subnodes)
  {
    forall m | Reach(Flow(g), n, m) ensures Candidate(g, subnodes, m) {
      StatusAlongPath(g, n, m);
      FlowMono(g, h, n, m);
      RemovableAlong(h, subnodes, n, m);
      CandidateBelow(g, h, subnodes, m);
    }
  }

  lemma RemovableAlong(h: EscGraph, subnodes: set<Node>, n: Node, m: Node)
    requires Removable(h, subnodes, n) && Reach(Flow(h), n, m)
    ensures Candidate(h, subnodes, m) && m in RemovableNodes(h, subnodes)
  {
    forall k | Reach(Flow(h), m, k) ensures Candidate(h, subnodes, k) {
      ReachTrans(Flow(h), n, m, k);
    }
  }

  lemma SimplifiedMono(g: EscGraph, h: EscGraph, subnodes: set<Node>)
    requires Good(g) && Good(h) && LessEq(g, h) && SubnodesAgree(g, h, subnodes) && LeaksAgree(g, h)
    ensures LessEq(Simplified(g, subnodes), Simplified(h, subnodes))
  {
    var s, t := Simplified(g, subnodes), Simplified(h, subnodes);
    forall e | HasEdge(s, e) ensures HasEdge(t, e) {
      KeptEdgeStays(g, h, subnodes, e);
    }
    forall n | n in s.status ensures n in t.status && s.status[n] <= t.status[n] {
      KeptNodeStays(g, h, subnodes, n);
    }
  }

  lemma KeptNodeStays(g: EscGraph, h: EscGraph, subnodes: set<Node>, n: Node)
    requires Good(g) && Good(h) && LessEq(g, h) && SubnodesAgree(g, h, subnodes)
    requires n in g.status && n !in RemovableNodes(g, subnodes)
    ensures n !in RemovableNodes(h, subnodes)
  {
    if n in RemovableNodes(h, subnodes) {
      RemovableBelow(g, h, subnodes, n);
    }
  }

  lemma KeptEdgeStays(g: EscGraph, h: EscGraph, subnodes: set<Node>, e: Edge)
    requires Good(g) && Good(h) && LessEq(g, h) && SubnodesAgree(g, h, subnodes) && LeaksAgree(g, h)
    requires HasEdge(Simplified(g, subnodes), e)
    ensures HasEdge(Simplified(h, subnodes), e)
  {
    SimplifiedEdge(g, subnodes, e);
    EdgeEnds(g, e);
    KeptNodeStays(g, h, subnodes, e.src);
    KeptNodeStays(g, h, subnodes, e.dest);
    if DropsEdge(h, e.src, e.dest) {
      InternalOnlyBelow(g, h, e.src, e.dest);
    }
    SimplifiedEdge(h, subnodes, e);
  }

  // What h drops is internal only in g as well.
  lemma InternalOnlyBelow(g: EscGraph, h: EscGraph, a: Node, b: Node)
    requires WellFormed(g) && WellFormed(h) && LessEq(g, h) && Arc(g, a, b) && DropsEdge(h, a, b)
    ensures g.edges[a][b] == {Internal} && HasEdge(g, Edge(a, b, Internal))
  {
    EdgeFlags(g, h, a, b);
  }

  lemma EdgeEnds(g: EscGraph, e: Edge)
    requires WellFormed(g) && HasEdge(g, e)
    ensures Arc(g, e.src, e.dest) && e.src in g.status && e.dest in g.status
  {
  }

  lemma OrderedSubnodesAgree(g: EscGraph, h: EscGraph, subnodes: set<Node>)
    requires Good(g) && LessEq(Simplified(g, subnodes), Simplified(h, subnodes))
    ensures SubnodesAgree(g, h, subnodes)
  {
    forall s, m | m in RemovableNodes(h, subnodes) && HasEdge(g, Edge(s, m, Subnode)) ensures StatusOf(g, s) == StatusOf(g, m) {
      EdgeEnds(g, Edge(s, m, Subnode));
      assert m !in Simplified(h, subnodes).status;
      assert m in RemovableNodes(g, subnodes);
      ReachRefl(Flow(g), m);
    }
  }

  // An internal edge keeps both its ends.
  lemma InternalEndsKept(g: EscGraph, subnodes: set<Node>, a: Node, b: Node)
    requires HasEdge(g, Edge(a, b, Internal))
    ensures a !in RemovableNodes(g, subnodes) && b !in RemovableNodes(g, subnodes)
  {
    ReachRefl(Flow(g), a);
    ReachRefl(Flow(g), b);
    assert !Candidate(g, subnodes, a) && !Candidate(g, subnodes, b);
  }

  lemma OrderedLeaksAgree(g: EscGraph, h: EscGraph, subnodes: set<Node>)
    requires Good(g) && Good(h) && LessEq(g, h) && LessEq(Simplified(g, subnodes), Simplified(h, subnodes))
    ensures LeaksAgree(g, h)
  {
    forall a, b | Arc(g, a, b) && DropsEdge(h, a, b) ensures StatusOf(g, a) == LEAKED {
      InternalOnlyBelow(g, h, a, b);
      InternalEndsKept(g, subnodes, a, b);
      SimplifiedEdge(g, subnodes, Edge(a, b, Internal));
      SimplifiedEdge(h, subnodes, Edge(a, b, Internal));
    }
  }

  // Two nodes of the same status with an internal edge between them.
  function OneEdge(a: Node, b: Node, s: Status): EscGraph {
    EscGraph(map[b := map[]][a := map[b := {Internal}]], map[a := s, b := s])
  }

  lemma OneEdgeKept(a: Node, b: Node, s: Status, subnodes: set<Node>)
    requires IntrinsicEscape(a) == LOCAL && IntrinsicEscape(b) == LOCAL && a != b
    ensures Good(OneEdge(a, b, s)) && RemovableNodes(OneEdge(a, b, s), subnodes) == {}
    ensures DropsEdge(OneEdge(a, b, s), a, b) <==> s == LEAKED
    ensures HasEdge(Simplified(OneEdge(a, b, s), subnodes), Edge(a, b, Internal)) <==> s != LEAKED
  {
    var g := OneEdge(a, b, s);
    assert forall x, y :: Arc(g, x, y) <==> x == a && y == b;
    assert HasEdge(g, Edge(a, b, Internal));
    InternalEndsKept(g, subnodes, a, b);
    SimplifiedEdge(g, subnodes, Edge(a, b, Internal));
  }

  // A variable that leaks loses its internal edge, so a greater graph can have a
  // summary that is not greater.
  lemma SimplifiedNotMonotone() returns (g: EscGraph, h: EscGraph)
    ensures Good(g) && Good(h) && LessEq(g, h) && !LessEq(Simplified(g, {}), Simplified(h, {}))
  {
    var a, b := Node(KindVar, 0), Node(KindVar, 1);
    g, h := OneEdge(a, b, LOCAL), OneEdge(a, b, LEAKED);
    OneEdgeKept(a, b, LOCAL, {});
    OneEdgeKept(a, b, LEAKED, {});
    OneEdgeRaised(a, b, LOCAL, LEAKED);
  }

  lemma OneEdgeRaised(a: Node, b: Node, s: Status, t: Status)
    requires a != b && s <= t
    ensures LessEq(OneEdge(a, b, s), OneEdge(a, b, t))
  {
  }

  // ------------------------------------------------------------ the code

  // The load nodes that qualify on their own and have no disqualifying edge in.
  method Candidates(g: EscapeGraph, subnodes: set<Node>) returns (candidates: set<Node>)
    requires g.Valid() && WellFormed(g.Value())
    ensures forall n :: n in candidates <==> Candidate(g.Value(), subnodes, n)
  {
    candidates := {};
    var nodes := g.status.Keys;
    while nodes != {}
      invariant nodes <= g.status.Keys
      invariant forall n :: n in candidates <==> n !in nodes && QualifiesAlone(g.Value(), subnodes, n)
    {
      var node :| node in nodes;
      nodes := nodes - {node};
      var st := g.status[node];
      var statusAllowsRemoval := st == ESCAPED || (st == LEAKED && node in subnodes);
      var out := g.Edges(Some(node), None, {Internal});
      if node.kind == KindLoad && statusAllowsRemoval && out == {} {
        forall d ensures !HasEdge(g.Value(), Edge(node, d, Internal)) {
          assert Edge(node, d, Internal) !in out;
        }
        candidates := candidates + {node};
      } else if out != {} {
        var e :| e in out;
        assert e == Edge(node, e.dest, Internal);
      }
    }
    ghost var alone := candidates;
    var es := g.EdgeList();
    while es != {}
      invariant forall e :: e in es ==> HasEdge(g.Value(), e)
      invariant forall n :: n in candidates <==>
                n in alone && forall e :: HasEdge(g.Value(), e) && e !in es && e.dest == n ==> !Disqualifies(g.Value(), e)
    {
      var e :| e in es;
      es := es - {e};
      assert Arc(g.Value(), e.src, e.dest);
      if e.mask == Internal {
        candidates := candidates - {e.dest};
      }
      if e.mask == Subnode && g.status[e.src] != g.status[e.dest] {
        candidates := candidates - {e.dest};
      }
    }
    forall n ensures n in candidates <==> Candidate(g.Value(), subnodes, n) {
      CandidateByEdges(g.Value(), subnodes, n);
    }
  }

  ghost predicate QualifiesAlone(g: EscGraph, subnodes: set<Node>, n: Node) {
    && n in g.status && n.kind == KindLoad
    && (g.status[n] == ESCAPED || (g.status[n] == LEAKED && n in subnodes))
    && (forall d :: !HasEdge(g, Edge(n, d, Internal)))
  }

  ghost predicate Disqualifies(g: EscGraph, e: Edge) {
    e.mask == Internal || (e.mask == Subnode && StatusOf(g, e.src) != StatusOf(g, e.dest))
  }

  lemma CandidateByEdges(g: EscGraph, subnodes: set<Node>, n: Node)
    ensures Candidate(g, subnodes, n) <==>
      QualifiesAlone(g, subnodes, n) && forall e :: HasEdge(g, e) && e.dest == n ==> !Disqualifies(g, e)
  {
    if Candidate(g, subnodes, n) {
      forall e | HasEdge(g, e) && e.dest == n ensures !Disqualifies(g, e) {
        assert e == Edge(e.src, n, e.mask);
      }
    }
    if QualifiesAlone(g, subnodes, n) && forall e :: HasEdge(g, e) && e.dest == n ==> !Disqualifies(g, e) {
      forall s ensures !HasEdge(g, Edge(s, n, Internal)) {
        assert Edge(s, n, Internal).dest == n;
      }
      forall s | HasEdge(g, Edge(s, n, Subnode)) ensures StatusOf(g, s) == g.status[n] {
        assert !Disqualifies(g, Edge(s, n, Subnode));
      }
    }
  }

  // Drops candidates that have a successor outside the set until none has.
  // What is left are exactly the candidates that reach candidates only.
  method RemoveNodesReachingNonCandidate(g: EscapeGraph, candidates0: set<Node>) returns (candidates: set<Node>)
    requires g.Valid()
    ensures forall n :: n in candidates <==> n in candidates0 && ReachesOnly(g.Value(), candidates0, n)
  {
    ghost var gv := g.Value();
    candidates := candidates0;
    while true
      invariant Shrinking(gv, candidates0, candidates)
      decreases candidates
    {
      var changed := false;
      var srcs := candidates;
      ghost var before := candidates;
      while srcs != {}
        invariant Shrinking(gv, candidates0, candidates)
        invariant srcs <= before && candidates <= before
        invariant changed <==> candidates != before
        invariant forall n, d :: n in candidates && n !in srcs && d in Succ(Flow(gv), n) ==> d in before
        invariant !changed ==> forall n :: n in candidates && n !in srcs ==> Succ(Flow(gv), n) <= candidates
      {
        var src :| src in srcs;
        srcs := srcs - {src};
        var dests := g.Pointees(src);
        ghost var all := dests;
        assert all == Succ(Flow(gv), src);
        while dests != {}
          invariant dests <= all
          invariant Shrinking(gv, candidates0, candidates)
          invariant candidates <= before
          invariant changed <==> candidates != before
          invariant forall n, d :: n in candidates && n !in srcs && n != src && d in Succ(Flow(gv), n) ==> d in before
          invariant src in candidates ==> all - dests <= candidates
          invariant !changed ==> forall n :: n in candidates && n !in srcs && n != src ==> Succ(Flow(gv), n) <= candidates
        {
          var dest :| dest in dests;
          dests := dests - {dest};
          if dest !in candidates {
            if src in candidates {
              DropKeepsShrinking(gv, candidates0, candidates, src, dest);
              candidates := candidates - {src};
              changed := true;
            }
          }
        }
      }
      if !changed {
        break;
      }
    }
    ClosedHoldsReach(Flow(gv), candidates);
    forall n | n in candidates ensures ReachesOnly(gv, candidates0, n) {}
  }

  // Nothing dropped so far reaches candidates only.
  ghost predicate Shrinking(g: EscGraph, all: set<Node>, c: set<Node>) {
    c <= all && forall n :: n in all && ReachesOnly(g, all, n) ==> n in c
  }

  lemma DropKeepsShrinking(g: EscGraph, all: set<Node>, c: set<Node>, src: Node, dest: Node)
    requires Shrinking(g, all, c) && dest in Succ(Flow(g), src) && dest !in c
    ensures Shrinking(g, all, c - {src})
  {
    if ReachesOnly(g, all, src) {
      ReachEdge(Flow(g), src, dest);
      forall m | Reach(Flow(g), dest, m) ensures m in all {
        ReachCons(Flow(g), src, dest, m);
      }
    }
  }

  // Deletes the nodes, the edges into them, and the internal-only edges out of
  // leaked nodes.
  method RemoveNodesInSet(g: EscapeGraph, c: set<Node>)
    requires g.Valid() && Good(g.Value())
    modifies g, g.rows
    ensures g.Valid() && g.rows == old(g.rows)
    ensures g.Value() == WithoutLeakedEdges(WithoutNodes(old(g.Value()), c)) && Good(g.Value())
  {
    WithoutNodesIsGood(g.Value(), c);
    RemoveNodes(g, c);
    WithoutLeakedEdgesIsGood(g.Value());
    RemoveLeakedEdges(g);
  }

  // Deletes the nodes and the edges into them.
  method RemoveNodes(g: EscapeGraph, c: set<Node>)
    requires g.Valid()
    modifies g, g.rows
    ensures g.Valid() && g.rows == old(g.rows) && g.Value() == WithoutNodes(old(g.Value()), c)
  {
    ghost var gv := g.Value();
    g.status, g.edges, g.contents := g.status - c, g.edges - c, g.contents - c;
    RemoveEdgesTo(g, c);
    assert g.Value() == WithoutNodes(gv, c);
  }

  // Deletes from every row the edges to nodes of c.
  method RemoveEdgesTo(g: EscapeGraph, c: set<Node>)
    requires g.Valid()
    modifies g`contents, g.rows
    ensures g.Valid() && g.contents == map a | a in old(g.contents) :: old(g.contents)[a] - c
  {
    var rest := g.edges.Keys;
    while rest != {}
      invariant g.Valid() && rest <= g.edges.Keys
      invariant forall a :: a in g.edges ==>
                  g.contents[a] == if a in rest then old(g.contents)[a] else old(g.contents)[a] - c
    {
      var x :| x in rest;
      var out := g.edges[x];
      g.FillRow(x, out, out.flags - c);
      rest := rest - {x};
    }
  }

  // Deletes from the rows of leaked nodes the edges that are internal only.
  method RemoveLeakedEdges(g: EscapeGraph)
    requires g.Valid() && g.status.Keys == g.edges.Keys
    modifies g`contents, g.rows
    ensures g.Valid() && g.contents == WithoutLeakedEdges(old(g.Value())).edges
  {
    ghost var gv := g.Value();
    var rest := g.edges.Keys;
    while rest != {}
      invariant g.Valid() && rest <= g.edges.Keys
      invariant forall a :: a in g.edges ==>
                  g.contents[a] == if a in rest then gv.edges[a] else WithoutLeakedEdges(gv).edges[a]
    {
      var x :| x in rest;
      if g.status[x] == LEAKED {
        var out := g.edges[x];
        g.FillRow(x, out, NotOnlyInternal(out.flags));
      }
      rest := rest - {x};
    }
  }

  // The whole simplification.
  method SimplifySummary(g: EscapeGraph, subnodes: set<Node>) returns (ghost removed: set<Node>)
    requires g.Valid() && Good(g.Value())
    modifies g, g.rows
    ensures g.Valid() && g.rows == old(g.rows)
    ensures removed == RemovableNodes(old(g.Value()), subnodes) && Closed(Flow(old(g.Value())), removed)
    ensures g.Value() == Simplified(old(g.Value()), subnodes) && Good(g.Value())
  {
    var candidates := Candidates(g, subnodes);
    var c := RemoveNodesReachingNonCandidate(g, candidates);
    removed := c;
    ReachesOnlyClosed(g.Value(), candidates, c);
    forall n ensures n in c <==> n in g.status && Removable(g.Value(), subnodes, n) {
      if n in g.status && Removable(g.Value(), subnodes, n) {
        ReachRefl(Flow(g.Value()), n);
      }
    }
    assert removed == RemovableNodes(g.Value(), subnodes);
    RemoveNodesInSet(g, c);
  }
}
