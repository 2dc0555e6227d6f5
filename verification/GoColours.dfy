// Which goroutines each function may run in: go statements are numbered, and
// the numbers are spread over the call graph until nothing changes.
module GoColours {
  import opened Options
  import opened DistinctSeqs

  type Node = int
  type GoStmt = int
  type Colour = int

  // Where an edge of the call graph comes from: a go statement, or anything else.
  datatype Site = Call | Go(stmt: GoStmt)

  // An edge can be missing, and its callee can be missing.
  datatype Edge = NilEdge | Edge(callee: Option<Node>, site: Site)

  // ------------------------------------------------------------ numbering

  const WRAP: int := 0x1_0000_0000

  // The numbers are 32 bits wide, and 0 stands for no go statement.
  method NumberGoCalls(stmts: seq<GoStmt>) returns (ids: seq<Option<GoStmt>>, goCalls: map<GoStmt, Colour>)
    requires NoDup(stmts)
    ensures |ids| == |stmts| + 1 && ids[0] == None && forall i :: 0 <= i < |stmts| ==> ids[i + 1] == Some(stmts[i])
    ensures goCalls.Keys == Items(stmts) && forall i :: 0 <= i < |stmts| ==> goCalls[stmts[i]] == (i + 1) % WRAP
  {
    var callID := 1 % WRAP;
    ids, goCalls := [None], map[];
    for i := 0 to |stmts|
      invariant callID == (i + 1) % WRAP
      invariant |ids| == i + 1 && ids[0] == None && forall j :: 0 <= j < i ==> ids[j + 1] == Some(stmts[j])
      invariant goCalls.Keys == Items(stmts[..i]) && forall j :: 0 <= j < i ==> goCalls[stmts[j]] == (j + 1) % WRAP
    {
      assert stmts[..i + 1] == stmts[..i] + [stmts[i]];
      ItemsAppend(stmts[..i], [stmts[i]]);
      assert Items([stmts[i]]) == {stmts[i]};
      goCalls := goCalls[stmts[i] := callID];
      ids := ids + [Some(stmts[i])];
      callID := (callID + 1) % WRAP;
    }
    assert stmts[..|stmts|] == stmts;
  }

  // Looking up the number of a go statement gives the statement back.
  ghost predicate Numbered(ids: seq<Option<GoStmt>>, goCalls: map<GoStmt, Colour>) {
    forall g :: g in goCalls ==> 1 <= goCalls[g] < |ids| && ids[goCalls[g]] == Some(g)
  }

  // That holds for all go statements if and only if the numbers did not wrap around.
  lemma NumberedUnlessWrapped(stmts: seq<GoStmt>, ids: seq<Option<GoStmt>>, goCalls: map<GoStmt, Colour>)
    requires NoDup(stmts)
    requires |ids| == |stmts| + 1 && ids[0] == None && forall i :: 0 <= i < |stmts| ==> ids[i + 1] == Some(stmts[i])
    requires goCalls.Keys == Items(stmts) && forall i :: 0 <= i < |stmts| ==> goCalls[stmts[i]] == (i + 1) % WRAP
    ensures Numbered(ids, goCalls) <==> |stmts| < WRAP
  {
    if |stmts| < WRAP {
      forall g | g in goCalls ensures 1 <= goCalls[g] < |ids| && ids[goCalls[g]] == Some(g) {
        assert g in Items(stmts);
        var i :| 0 <= i < |stmts| && stmts[i] == g;
        assert (i + 1) % WRAP == i + 1;
      }
    } else {
      var g := stmts[WRAP - 1];
      assert g in Items(stmts) && goCalls[g] == WRAP % WRAP;
    }
  }

  // ------------------------------------------------------------ what the colours mean

  // A walk over the call graph: each edge leads from one node to the next.
  ghost predicate Walk(out: map<Node, seq<Edge>>, root: Node, nodes: seq<Node>, edges: seq<Edge>) {
    && |nodes| == |edges| + 1 && nodes[0] == root
    && forall i :: 0 <= i < |edges| ==> Leads(out, nodes[i], edges[i], nodes[i + 1])
  }

  predicate Leads(out: map<Node, seq<Edge>>, a: Node, e: Edge, b: Node) {
    a in out && e in out[a] && e.Edge? && e.callee == Some(b)
  }

  // Every edge of a node that has a callee can be walked.
  lemma EdgeIsWalk(out: map<Node, seq<Edge>>, root: Node, site: Site, b: Node)
    requires root in out && Edge(Some(b), site) in out[root]
    ensures Walk(out, root, [root, b], [Edge(Some(b), site)])
  {
  }

  function Number(goCalls: map<GoStmt, Colour>, g: GoStmt): Colour {
    if g in goCalls then goCalls[g] else 0
  }

  // The number of the last go statement of a walk, or 0 if it has none.
  ghost function LastGo(goCalls: map<GoStmt, Colour>, edges: seq<Edge>): Colour {
    if edges == [] then 0
    else
      var e := edges[|edges| - 1];
      if e.Edge? && e.site.Go? then Number(goCalls, e.site.stmt) else LastGo(goCalls, edges[..|edges| - 1])
  }

  ghost predicate RunsIn(out: map<Node, seq<Edge>>, goCalls: map<GoStmt, Colour>, root: Node, n: Node, id: Colour) {
    exists nodes, edges :: Walk(out, root, nodes, edges) && nodes[|nodes| - 1] == n && LastGo(goCalls, edges) == id
  }

  lemma RunsInRoot(out: map<Node, seq<Edge>>, goCalls: map<GoStmt, Colour>, root: Node)
    ensures RunsIn(out, goCalls, root, root, 0)
  {
    assert Walk(out, root, [root], []) && LastGo(goCalls, []) == 0;
  }

  lemma RunsInStep(out: map<Node, seq<Edge>>, goCalls: map<GoStmt, Colour>, root: Node, a: Node, id: Colour, e: Edge, b: Node)
    requires RunsIn(out, goCalls, root, a, id) && Leads(out, a, e, b)
    ensures RunsIn(out, goCalls, root, b, if e.site.Go? then Number(goCalls, e.site.stmt) else id)
  {
    var nodes, edges :| Walk(out, root, nodes, edges) && nodes[|nodes| - 1] == a && LastGo(goCalls, edges) == id;
    var nodes', edges' := nodes + [b], edges + [e];
    assert edges'[..|edges'| - 1] == edges;
    forall i | 0 <= i < |edges'| ensures Leads(out, nodes'[i], edges'[i], nodes'[i + 1]) {
      if i < |edges| {
        assert Leads(out, nodes[i], edges[i], nodes[i + 1]);
      }
    }
    assert Walk(out, root, nodes', edges');
  }

  // ------------------------------------------------------------ the state of the search

  // What the callee of an edge from a node with colours ids gets.
  // After a go statement, a walk runs in the goroutine of that statement's number,
  // or 0 if it has none; a call does not change goroutines.
  lemma LastGoAfter(goCalls: map<GoStmt, Colour>, edges: seq<Edge>, callee: Option<Node>, g: GoStmt)
    ensures LastGo(goCalls, []) == 0
    ensures g in goCalls ==> LastGo(goCalls, edges + [Edge(callee, Go(g))]) == goCalls[g]
    ensures g !in goCalls ==> LastGo(goCalls, edges + [Edge(callee, Go(g))]) == 0
    ensures LastGo(goCalls, edges + [Edge(callee, Call)]) == LastGo(goCalls, edges)
  {
    assert (edges + [Edge(callee, Call)])[..|edges|] == edges;
  }

  function Arriving(goCalls: map<GoStmt, Colour>, ids: set<Colour>, e: Edge): set<Colour> {
    if e.Edge? && e.site.Go? then {Number(goCalls, e.site.stmt)} else ids
  }

  function ColoursOf(vis: map<Node, set<Colour>>, n: Node): set<Colour> {
    if n in vis then vis[n] else {}
  }

  // All colours have arrived at the end of the edge.
  ghost predicate Arrived(goCalls: map<GoStmt, Colour>, vis: map<Node, set<Colour>>, a: Node, e: Edge, b: Node) {
    b in vis && Arriving(goCalls, ColoursOf(vis, a), e) <= vis[b]
  }

  ghost predicate Justified(out: map<Node, seq<Edge>>, goCalls: map<GoStmt, Colour>, root: Node, vis: map<Node, set<Colour>>) {
    && root in vis && 0 in vis[root]
    && (forall n :: n in vis ==> vis[n] != {})
    && (forall n, id :: n in vis && id in vis[n] ==> RunsIn(out, goCalls, root, n, id))
  }

  // Every edge of a visited node that is not waiting has been followed.
  ghost predicate Spread(out: map<Node, seq<Edge>>, goCalls: map<GoStmt, Colour>, vis: map<Node, set<Colour>>, waiting: set<Node>) {
    && waiting <= vis.Keys
    && forall a, e, b :: a in vis && a !in waiting && Leads(out, a, e, b) ==> Arrived(goCalls, vis, a, e, b)
  }

  // With nothing waiting the colours are exact.
  lemma {:induction false} WalkIsCovered(out: map<Node, seq<Edge>>, goCalls: map<GoStmt, Colour>, root: Node,
                                         vis: map<Node, set<Colour>>, nodes: seq<Node>, edges: seq<Edge>)
    requires Justified(out, goCalls, root, vis) && Spread(out, goCalls, vis, {}) && Walk(out, root, nodes, edges)
    ensures var n := nodes[|nodes| - 1]; n in vis && LastGo(goCalls, edges) in vis[n]
    decreases |edges|
  {
    if edges != [] {
      var k := |edges| - 1;
      assert Walk(out, root, nodes[..k + 1], edges[..k]);
      WalkIsCovered(out, goCalls, root, vis, nodes[..k + 1], edges[..k]);
      assert Leads(out, nodes[k], edges[k], nodes[k + 1]);
      assert Arrived(goCalls, vis, nodes[k], edges[k], nodes[k + 1]);
    }
  }

  ghost predicate ExactColours(out: map<Node, seq<Edge>>, goCalls: map<GoStmt, Colour>, root: Node, vis: map<Node, set<Colour>>) {
    && (forall n, id :: id in ColoursOf(vis, n) <==> RunsIn(out, goCalls, root, n, id))
    && forall n :: n in vis ==> vis[n] != {}
  }

  lemma SpreadIsExact(out: map<Node, seq<Edge>>, goCalls: map<GoStmt, Colour>, root: Node, vis: map<Node, set<Colour>>)
    requires Justified(out, goCalls, root, vis) && Spread(out, goCalls, vis, {})
    ensures ExactColours(out, goCalls, root, vis)
  {
    forall n, id | RunsIn(out, goCalls, root, n, id) ensures id in ColoursOf(vis, n) {
      var nodes, edges :| Walk(out, root, nodes, edges) && nodes[|nodes| - 1] == n && LastGo(goCalls, edges) == id;
      WalkIsCovered(out, goCalls, root, vis, nodes, edges);
    }
  }

  // ------------------------------------------------------------ one node at a time

  // The first i edges of elt have been followed, unless elt is waiting again.
  ghost predicate Following(out: map<Node, seq<Edge>>, goCalls: map<GoStmt, Colour>, root: Node, vis: map<Node, set<Colour>>,
                            waiting: set<Node>, elt: Node, i: nat)
    requires i <= |Out(out, elt)|
  {
    && Justified(out, goCalls, root, vis) && elt in vis
    && Spread(out, goCalls, vis, waiting + {elt})
    && (elt in waiting || forall k, b :: 0 <= k < i && Leads(out, elt, Out(out, elt)[k], b) ==> Arrived(goCalls, vis, elt, Out(out, elt)[k], b))
  }

  function Out(out: map<Node, seq<Edge>>, n: Node): seq<Edge> {
    if n in out then out[n] else []
  }

  // The colours after an edge from elt to b has been followed.
  ghost function After(goCalls: map<GoStmt, Colour>, vis: map<Node, set<Colour>>, elt: Node, e: Edge, b: Node): map<Node, set<Colour>> {
    vis[b := ColoursOf(vis, b) + Arriving(goCalls, ColoursOf(vis, elt), e)]
  }

  lemma FollowingStep(out: map<Node, seq<Edge>>, goCalls: map<GoStmt, Colour>, root: Node, vis: map<Node, set<Colour>>,
                      waiting: set<Node>, elt: Node, i: nat, b: Node)
    requires i < |Out(out, elt)| && Following(out, goCalls, root, vis, waiting, elt, i)
    requires Leads(out, elt, Out(out, elt)[i], b)
    ensures var vis' := After(goCalls, vis, elt, Out(out, elt)[i], b);
            Following(out, goCalls, root, vis', if vis' == vis then waiting else waiting + {b}, elt, i + 1)
  {
    var e := Out(out, elt)[i];
    var vis' := After(goCalls, vis, elt, e, b);
    AfterIsJustified(out, goCalls, root, vis, elt, e, b);
    var waiting' := if vis' == vis then waiting else waiting + {b};
    forall a, f, c | a in vis' && a !in waiting' + {elt} && Leads(out, a, f, c) ensures Arrived(goCalls, vis', a, f, c) {
      assert Arrived(goCalls, vis, a, f, c);
    }
    if elt !in waiting' {
      forall k, c | 0 <= k < i + 1 && Leads(out, elt, Out(out, elt)[k], c) ensures Arrived(goCalls, vis', elt, Out(out, elt)[k], c) {
        if k < i {
          assert Arrived(goCalls, vis, elt, Out(out, elt)[k], c);
        }
      }
    }
  }

  lemma AfterIsJustified(out: map<Node, seq<Edge>>, goCalls: map<GoStmt, Colour>, root: Node, vis: map<Node, set<Colour>>, elt: Node, e: Edge, b: Node)
    requires Justified(out, goCalls, root, vis) && elt in vis && Leads(out, elt, e, b)
    ensures Justified(out, goCalls, root, After(goCalls, vis, elt, e, b))
  {
    forall id | id in vis[elt] ensures RunsIn(out, goCalls, root, b, if e.site.Go? then Number(goCalls, e.site.stmt) else id) {
      RunsInStep(out, goCalls, root, elt, id, e, b);
    }
    var id0 :| id0 in vis[elt];
    assert Arriving(goCalls, ColoursOf(vis, elt), e) != {} by {
      assert id0 in vis[elt];
    }
  }

  // An edge that leads nowhere needs nothing.
  lemma FollowingSkip(out: map<Node, seq<Edge>>, goCalls: map<GoStmt, Colour>, root: Node, vis: map<Node, set<Colour>>,
                      waiting: set<Node>, elt: Node, i: nat)
    requires i < |Out(out, elt)| && Following(out, goCalls, root, vis, waiting, elt, i)
    requires var e := Out(out, elt)[i]; e.NilEdge? || e.callee.None?
    ensures Following(out, goCalls, root, vis, waiting, elt, i + 1)
  {
  }

  lemma FollowingDone(out: map<Node, seq<Edge>>, goCalls: map<GoStmt, Colour>, root: Node, vis: map<Node, set<Colour>>,
                      waiting: set<Node>, elt: Node)
    requires Following(out, goCalls, root, vis, waiting, elt, |Out(out, elt)|)
    ensures waiting <= vis.Keys && Spread(out, goCalls, vis, waiting)
  {
    forall a, e, b | a in vis && a !in waiting && Leads(out, a, e, b) ensures Arrived(goCalls, vis, a, e, b) {
      if a == elt {
        var k :| 0 <= k < |Out(out, elt)| && Out(out, elt)[k] == e;
        assert Leads(out, elt, Out(out, elt)[k], b);
      }
    }
  }

  // ------------------------------------------------------------ termination

  ghost function Pairs(vis: map<Node, set<Colour>>): set<(Node, Colour)> {
    set n, id | n in vis && id in vis[n] :: (n, id)
  }

  ghost function AllNodes(out: map<Node, seq<Edge>>, root: Node): set<Node> {
    {root} + set n, i | n in out && 0 <= i < |out[n]| && out[n][i].Edge? && out[n][i].callee.Some? :: out[n][i].callee.value
  }

  ghost function AllPairs(out: map<Node, seq<Edge>>, goCalls: map<GoStmt, Colour>, root: Node): set<(Node, Colour)> {
    set n, id | n in AllNodes(out, root) && id in {0} + goCalls.Values :: (n, id)
  }

  lemma {:induction false} LastGoIsNumber(goCalls: map<GoStmt, Colour>, edges: seq<Edge>)
    ensures LastGo(goCalls, edges) in {0} + goCalls.Values
  {
    if edges != [] {
      LastGoIsNumber(goCalls, edges[..|edges| - 1]);
    }
  }

  lemma RunsInPair(out: map<Node, seq<Edge>>, goCalls: map<GoStmt, Colour>, root: Node, n: Node, id: Colour)
    requires RunsIn(out, goCalls, root, n, id)
    ensures (n, id) in AllPairs(out, goCalls, root)
  {
    var nodes, edges :| Walk(out, root, nodes, edges) && nodes[|nodes| - 1] == n && LastGo(goCalls, edges) == id;
    LastGoIsNumber(goCalls, edges);
    if edges != [] {
      var k := |edges| - 1;
      assert Leads(out, nodes[k], edges[k], nodes[k + 1]);
      var j :| 0 <= j < |out[nodes[k]]| && out[nodes[k]][j] == edges[k];
    }
  }

  lemma NoChange(vis: map<Node, set<Colour>>, b: Node, ids: set<Colour>)
    ensures vis[b := ColoursOf(vis, b) + ids] == vis <==> b in vis && ids <= vis[b]
  {
    var vis' := vis[b := ColoursOf(vis, b) + ids];
    if vis' == vis {
      assert vis[b] == vis'[b];
    }
    if b in vis && ids <= vis[b] {
      assert vis[b] + ids == vis[b];
    }
  }

  lemma PairsGrow(out: map<Node, seq<Edge>>, goCalls: map<GoStmt, Colour>, root: Node, vis: map<Node, set<Colour>>, elt: Node, e: Edge, b: Node)
    requires Justified(out, goCalls, root, vis) && elt in vis && Leads(out, elt, e, b)
    ensures var vis' := After(goCalls, vis, elt, e, b);
            vis' == vis || AllPairs(out, goCalls, root) - Pairs(vis') < AllPairs(out, goCalls, root) - Pairs(vis)
  {
    var vis' := After(goCalls, vis, elt, e, b);
    var ids := Arriving(goCalls, ColoursOf(vis, elt), e);
    AfterIsJustified(out, goCalls, root, vis, elt, e, b);
    NoChange(vis, b, ids);
    assert Pairs(vis) <= Pairs(vis');
    if vis' != vis {
      var id := if b in vis then Member(ids - vis[b]) else Member(vis'[b]);
      RunsInPair(out, goCalls, root, b, id);
      assert (b, id) in Pairs(vis') && (b, id) !in Pairs(vis);
    }
  }

  // ------------------------------------------------------------ the code

  // Gives the callee of one edge what arrives there; add tells whether the
  // callee was new or changed.
  method FollowEdge(goCalls: map<GoStmt, Colour>, vis: map<Node, set<Colour>>, elt: Node, e: Edge, b: Node)
    returns (vis': map<Node, set<Colour>>, add: bool)
    requires elt in vis && e.Edge?
    ensures vis' == After(goCalls, vis, elt, e, b) && (add <==> vis' != vis)
  {
    add := b !in vis;
    var row := ColoursOf(vis, b);
    if e.site.Go? {
      var id := Number(goCalls, e.site.stmt);
      if id !in row {
        add, row := true, row + {id};
      }
    } else {
      var todo := vis[elt];
      while todo != {}
        invariant todo <= vis[elt] && row == ColoursOf(vis, b) + (vis[elt] - todo)
        invariant add <==> b !in vis || !(vis[elt] - todo <= vis[b])
      {
        var id := Pick(todo);
        if id !in row {
          add, row := true, row + {id};
        }
        todo := todo - {id};
      }
    }
    ghost var ids := Arriving(goCalls, vis[elt], e);
    assert e.site.Call? ==> vis[elt] - {} == vis[elt];
    assert row == ColoursOf(vis, b) + ids;
    NoChange(vis, b, ids);
    vis' := vis[b := row];
  }

  // The colours of all nodes that the root reaches: for every walk from the root
  // the number of its last go statement, or 0.
  method Colours(out: map<Node, seq<Edge>>, goCalls: map<GoStmt, Colour>, root: Node) returns (vis: map<Node, set<Colour>>)
    ensures ExactColours(out, goCalls, root, vis)
  {
    var que := [root];
    vis := map[root := {0}];
    RunsInRoot(out, goCalls, root);
    assert Items([root]) == {root};
    while que != []
      invariant Justified(out, goCalls, root, vis) && Spread(out, goCalls, vis, Items(que))
      decreases AllPairs(out, goCalls, root) - Pairs(vis), |que|
    {
      var elt := que[0];
      var edges := Out(out, elt);
      NextFollows(out, goCalls, root, vis, que);
      que := que[1..];
      ghost var vis0, len0 := vis, |que|;
      for i := 0 to |edges|
        invariant Following(out, goCalls, root, vis, Items(que), elt, i)
        invariant if vis == vis0 then |que| == len0
                  else AllPairs(out, goCalls, root) - Pairs(vis) < AllPairs(out, goCalls, root) - Pairs(vis0)
      {
        var e := edges[i];
        if e.NilEdge? || e.callee.None? {
          FollowingSkip(out, goCalls, root, vis, Items(que), elt, i);
          continue;
        }
        var b := e.callee.value;
        FollowingStep(out, goCalls, root, vis, Items(que), elt, i, b);
        PairsGrow(out, goCalls, root, vis, elt, e, b);
        var vis', add := FollowEdge(goCalls, vis, elt, e, b);
        if add {
          ItemsAppend(que, [b]);
          assert Items([b]) == {b};
          que := que + [b];
        }
        vis := vis';
      }
      FollowingDone(out, goCalls, root, vis, Items(que), elt);
    }
    SpreadIsExact(out, goCalls, root, vis);
  }

  lemma NextFollows(out: map<Node, seq<Edge>>, goCalls: map<GoStmt, Colour>, root: Node, vis: map<Node, set<Colour>>, que: seq<Node>)
    requires que != [] && Justified(out, goCalls, root, vis) && Spread(out, goCalls, vis, Items(que))
    ensures Following(out, goCalls, root, vis, Items(que[1..]), que[0], 0)
  {
    assert que == [que[0]] + que[1..];
    ItemsAppend([que[0]], que[1..]);
    assert Items([que[0]]) == {que[0]};
  }

  // ------------------------------------------------------------ what 0 means

  predicate IsGo(e: Edge) {
    e.Edge? && e.site.Go?
  }

  // Some walk from the root to n has no go statement.
  ghost predicate GoFree(out: map<Node, seq<Edge>>, root: Node, n: Node) {
    exists nodes, edges :: Walk(out, root, nodes, edges) && nodes[|nodes| - 1] == n && forall e :: e in edges ==> !IsGo(e)
  }

  ghost predicate Reached(out: map<Node, seq<Edge>>, root: Node, n: Node) {
    exists nodes, edges :: Walk(out, root, nodes, edges) && nodes[|nodes| - 1] == n
  }

  // What a go statement without a number, or with a number that wrapped to 0,
  // starts can also be called without any go statement.
  ghost predicate ZerosCovered(out: map<Node, seq<Edge>>, goCalls: map<GoStmt, Colour>, root: Node) {
    forall a, e, b :: Reached(out, root, a) && Leads(out, a, e, b) && IsGo(e) && Number(goCalls, e.site.stmt) == 0
                      ==> GoFree(out, root, b)
  }

  lemma GoFreeStep(out: map<Node, seq<Edge>>, root: Node, a: Node, e: Edge, b: Node)
    requires GoFree(out, root, a) && Leads(out, a, e, b) && !IsGo(e)
    ensures GoFree(out, root, b)
  {
    var nodes, edges :| Walk(out, root, nodes, edges) && nodes[|nodes| - 1] == a && forall x :: x in edges ==> !IsGo(x);
    WalkSnoc(out, root, nodes, edges, e, b);
    assert forall x :: x in edges + [e] ==> !IsGo(x);
  }

  lemma WalkSnoc(out: map<Node, seq<Edge>>, root: Node, nodes: seq<Node>, edges: seq<Edge>, e: Edge, b: Node)
    requires Walk(out, root, nodes, edges) && Leads(out, nodes[|nodes| - 1], e, b)
    ensures Walk(out, root, nodes + [b], edges + [e])
  {
    forall i | 0 <= i < |edges| + 1 ensures Leads(out, (nodes + [b])[i], (edges + [e])[i], (nodes + [b])[i + 1]) {
      if i < |edges| {
        assert Leads(out, nodes[i], edges[i], nodes[i + 1]);
      }
    }
  }

  lemma WalkInit(out: map<Node, seq<Edge>>, root: Node, nodes: seq<Node>, edges: seq<Edge>)
    requires Walk(out, root, nodes, edges) && edges != []
    ensures var k := |edges| - 1;
      Walk(out, root, nodes[..k + 1], edges[..k]) && Leads(out, nodes[k], edges[k], nodes[k + 1])
  {
    var k := |edges| - 1;
    forall i | 0 <= i < k ensures Leads(out, nodes[..k + 1][i], edges[..k][i], nodes[..k + 1][i + 1]) {
      assert Leads(out, nodes[i], edges[i], nodes[i + 1]);
    }
  }

  // A walk whose last go statement, if any, counts as 0 can be replaced by one without.
  lemma {:induction false} ZeroWalkIsGoFree(out: map<Node, seq<Edge>>, goCalls: map<GoStmt, Colour>, root: Node,
                                            nodes: seq<Node>, edges: seq<Edge>)
    requires ZerosCovered(out, goCalls, root) && Walk(out, root, nodes, edges) && LastGo(goCalls, edges) == 0
    ensures GoFree(out, root, nodes[|nodes| - 1])
    decreases |edges|
  {
    if edges != [] {
      var k := |edges| - 1;
      WalkInit(out, root, nodes, edges);
      assert Reached(out, root, nodes[k]) by {
        assert nodes[..k + 1][k] == nodes[k];
      }
      if !IsGo(edges[k]) {
        ZeroWalkIsGoFree(out, goCalls, root, nodes[..k + 1], edges[..k]);
        GoFreeStep(out, root, nodes[k], edges[k], nodes[k + 1]);
      }
    }
  }

  lemma {:induction false} GoFreeHasZero(goCalls: map<GoStmt, Colour>, edges: seq<Edge>)
    requires forall e :: e in edges ==> !IsGo(e)
    ensures LastGo(goCalls, edges) == 0
  {
    if edges != [] {
      assert edges[|edges| - 1] in edges;
      GoFreeHasZero(goCalls, edges[..|edges| - 1]);
    }
  }

  // 0 is on exactly the nodes that some walk reaches without a go statement if
  // and only if that covers what go statements that count as 0 start.
  lemma ZeroIsGoFree(out: map<Node, seq<Edge>>, goCalls: map<GoStmt, Colour>, root: Node, vis: map<Node, set<Colour>>)
    requires ExactColours(out, goCalls, root, vis)
    ensures (forall n :: 0 in ColoursOf(vis, n) <==> GoFree(out, root, n)) <==> ZerosCovered(out, goCalls, root)
  {
    forall n | GoFree(out, root, n) ensures 0 in ColoursOf(vis, n) {
      var nodes, edges :| Walk(out, root, nodes, edges) && nodes[|nodes| - 1] == n && forall e :: e in edges ==> !IsGo(e);
      GoFreeHasZero(goCalls, edges);
      assert RunsIn(out, goCalls, root, n, 0);
    }
    if ZerosCovered(out, goCalls, root) {
      forall n | 0 in ColoursOf(vis, n) ensures GoFree(out, root, n) {
        var nodes, edges :| Walk(out, root, nodes, edges) && nodes[|nodes| - 1] == n && LastGo(goCalls, edges) == 0;
        ZeroWalkIsGoFree(out, goCalls, root, nodes, edges);
      }
    }
    if forall n :: 0 in ColoursOf(vis, n) <==> GoFree(out, root, n) {
      forall a, e, b | Reached(out, root, a) && Leads(out, a, e, b) && IsGo(e) && Number(goCalls, e.site.stmt) == 0
        ensures GoFree(out, root, b)
      {
        ReachedRuns(out, goCalls, root, a, e, b);
        assert 0 in ColoursOf(vis, b);
      }
    }
  }

  lemma ReachedRuns(out: map<Node, seq<Edge>>, goCalls: map<GoStmt, Colour>, root: Node, a: Node, e: Edge, b: Node)
    requires Reached(out, root, a) && Leads(out, a, e, b) && IsGo(e)
    ensures RunsIn(out, goCalls, root, b, Number(goCalls, e.site.stmt))
  {
    var nodes, edges :| Walk(out, root, nodes, edges) && nodes[|nodes| - 1] == a;
    assert RunsIn(out, goCalls, root, a, LastGo(goCalls, edges));
    RunsInStep(out, goCalls, root, a, LastGo(goCalls, edges), e, b);
  }

  // If every go statement has a number other than 0, a function that is started
  // by go statements only does not get 0.
  lemma NumberedZeroIsGoFree(out: map<Node, seq<Edge>>, goCalls: map<GoStmt, Colour>, root: Node, vis: map<Node, set<Colour>>, n: Node)
    requires ExactColours(out, goCalls, root, vis)
    requires forall a, e, b :: Leads(out, a, e, b) && IsGo(e) ==> Number(goCalls, e.site.stmt) != 0
    ensures 0 in ColoursOf(vis, n) <==> GoFree(out, root, n)
  {
    ZeroIsGoFree(out, goCalls, root, vis);
  }

  // An example: node 1 is reached, but only through a numbered go statement.
  lemma StartedOnlyByGo(vis: map<Node, set<Colour>>)
    requires ExactColours(map[0 := [Edge(Some(1), Go(7))]], map[7 := 1], 0, vis)
    ensures 1 in vis && vis[1] == {1}
  {
    var out, goCalls := map[0 := [Edge(Some(1), Go(7))]], map[7 := 1];
    assert Leads(out, 0, out[0][0], 1);
    RunsInRoot(out, goCalls, 0);
    RunsInStep(out, goCalls, 0, 0, 0, out[0][0], 1);
    forall id | id in ColoursOf(vis, 1) ensures id == 1 {
      var nodes, edges :| Walk(out, 0, nodes, edges) && nodes[|nodes| - 1] == 1 && LastGo(goCalls, edges) == id;
      var k := |edges| - 1;
      assert Leads(out, nodes[k], edges[k], nodes[k + 1]);
    }
  }

  // The same go statement without a number gives 0.
  lemma UnnumberedCountsAsZero(vis: map<Node, set<Colour>>)
    requires ExactColours(map[0 := [Edge(Some(1), Go(7))]], map[], 0, vis)
    ensures 0 in ColoursOf(vis, 1) && !GoFree(map[0 := [Edge(Some(1), Go(7))]], 0, 1)
  {
    var out := map[0 := [Edge(Some(1), Go(7))]];
    assert Leads(out, 0, out[0][0], 1);
    RunsInRoot(out, map[], 0);
    RunsInStep(out, map[], 0, 0, 0, out[0][0], 1);
    forall nodes, edges | Walk(out, 0, nodes, edges) && nodes[|nodes| - 1] == 1 ensures exists e :: e in edges && IsGo(e) {
      var k := |edges| - 1;
      assert Leads(out, nodes[k], edges[k], nodes[k + 1]);
      assert edges[k] in edges && IsGo(edges[k]);
    }
  }
}
