// Control-flow graphs of basic blocks, and the check for a path between two blocks.
module Blocks {
  import opened DistinctSeqs
  import opened Paths

  type Block = int

  // Successor lists, in order: the first successor of a two-way branch is the
  // one taken when the condition holds.
  type SuccLists = map<Block, seq<Block>>

  function Succs(c: SuccLists, b: Block): seq<Block> {
    if b in c then c[b] else []
  }

  ghost function GraphOf(c: SuccLists): Graph<Block> {
    map b | b in c :: Items(c[b])
  }

  lemma SuccIsSuccs(c: SuccLists, a: Block)
    ensures Succ(GraphOf(c), a) == Items(Succs(c, a))
  {
  }

  ghost predicate Listed(c: SuccLists, a: Block, b: Block) {
    a in c && b in c[a]
  }

  // A sequence of blocks each of which is listed as a successor of the one before.
  ghost predicate ControlPath(c: SuccLists, p: seq<Block>, a: Block, b: Block) {
    && p != [] && p[0] == a && p[|p| - 1] == b
    && forall i, j :: 0 <= i && j == i + 1 && j < |p| ==> Listed(c, p[i], p[j])
  }

  // Reachability is by such paths.
  lemma ReachIsControl(c: SuccLists, a: Block, b: Block)
    ensures Reach(GraphOf(c), a, b) <==> exists p :: ControlPath(c, p, a, b)
  {
    assert forall x, y :: Listed(c, x, y) <==> y in Succ(GraphOf(c), x);
    forall p ensures Joins(GraphOf(c), p, a, b) <==> ControlPath(c, p, a, b) {
    }
  }

  ghost function BlocksOf(c: SuccLists): set<Block> {
    c.Keys + set a, b | a in c && b in c[a] :: b
  }

  // The successors a search still has to visit, in order.
  function Unvisited(succs: seq<Block>, vis: set<Block>): (r: seq<Block>)
    ensures forall b :: b in r <==> b in succs && b !in vis
  {
    if succs == [] then []
    else if succs[|succs| - 1] in vis then Unvisited(succs[..|succs| - 1], vis)
    else Unvisited(succs[..|succs| - 1], vis) + [succs[|succs| - 1]]
  }

  // ------------------------------------------------------------ the state of the search

  // b1 reaches all that is queued or visited, and every successor of a visited
  // block is queued or visited.
  ghost predicate Searching(c: SuccLists, b1: Block, b2: Block, que: seq<Block>, vis: set<Block>) {
    && (b1 in vis || b1 in que) && b2 !in vis
    && (forall b :: b in que ==> Reach(GraphOf(c), b1, b))
    && (forall b :: b in vis ==> Reach(GraphOf(c), b1, b))
    && (forall a, b :: a in vis && b in Succs(c, a) ==> b in vis || b in que)
  }

  lemma SearchingStep(c: SuccLists, b1: Block, b2: Block, que: seq<Block>, vis: set<Block>)
    requires que != [] && que[0] != b2 && Searching(c, b1, b2, que, vis)
    ensures Searching(c, b1, b2, que[1..] + Unvisited(Succs(c, que[0]), vis + {que[0]}), vis + {que[0]})
  {
    var b, vis' := que[0], vis + {que[0]};
    var added := Unvisited(Succs(c, b), vis');
    forall x | x in added ensures Reach(GraphOf(c), b1, x) {
      SuccIsSuccs(c, b);
      ReachSnoc(GraphOf(c), b1, b, x);
    }
    assert forall x :: x in que <==> x == b || x in que[1..];
  }

  lemma SearchingDone(c: SuccLists, b1: Block, b2: Block, vis: set<Block>)
    requires Searching(c, b1, b2, [], vis)
    ensures !Reach(GraphOf(c), b1, b2)
  {
    forall a, b | a in vis && b in Succ(GraphOf(c), a) ensures b in vis {
      SuccIsSuccs(c, a);
      assert b in Succs(c, a);
    }
    ClosedHoldsReach(GraphOf(c), vis);
  }

  // ------------------------------------------------------------ termination

  // How many visited blocks come before the first unvisited one.
  ghost function Stale(que: seq<Block>, vis: set<Block>): nat {
    if que == [] || que[0] !in vis then 0 else 1 + Stale(que[1..], vis)
  }

  lemma {:induction false} StaleAppend(que: seq<Block>, more: seq<Block>, vis: set<Block>)
    requires more == [] || exists b :: b in que && b !in vis
    ensures Stale(que + more, vis) == Stale(que, vis)
  {
    if more == [] {
      assert que + more == que;
    } else if que[0] in vis {
      assert (que + more)[1..] == que[1..] + more;
      var b :| b in que && b !in vis;
      assert b in que[1..];
      StaleAppend(que[1..], more, vis);
    }
  }

  // A visited block may be queued and expanded again, but what it adds is
  // already waiting further back.
  lemma SearchingDecreases(c: SuccLists, b1: Block, b2: Block, que: seq<Block>, vis: set<Block>)
    requires que != [] && Searching(c, b1, b2, que, vis)
    ensures var vis' := vis + {que[0]};
            var que' := que[1..] + Unvisited(Succs(c, que[0]), vis');
            if que[0] in vis then vis' == vis && Stale(que', vis) < Stale(que, vis)
            else BlocksOf(c) + {b1} - vis' < BlocksOf(c) + {b1} - vis
  {
    var b := que[0];
    if b in vis {
      var added := Unvisited(Succs(c, b), vis);
      assert vis + {b} == vis;
      if added != [] {
        var x := added[0];
        assert x in added;
        assert x in que && x != b;
        assert x in que[1..];
      }
      StaleAppend(que[1..], added, vis);
    } else {
      ReachedIsBlock(c, b1, b);
    }
  }

  lemma ReachedIsBlock(c: SuccLists, a: Block, b: Block)
    requires Reach(GraphOf(c), a, b)
    ensures b in BlocksOf(c) + {a}
  {
    forall x, y | x in BlocksOf(c) + {a} && y in Succ(GraphOf(c), x) ensures y in BlocksOf(c) + {a} {
      SuccIsSuccs(c, x);
      assert x in c && y in c[x];
    }
    ReachStays(GraphOf(c), BlocksOf(c) + {a}, a, b);
  }

  // ------------------------------------------------------------ the code

  class Memo {
    var table: map<Block, map<Block, bool>>

    constructor ()
      ensures table == map[]
    {
      table := map[];
    }

    // Every recorded answer is right.
    ghost predicate Valid(c: SuccLists)
      reads this
    {
      forall a, b :: a in table && b in table[a] ==> (table[a][b] <==> Reach(GraphOf(c), a, b))
    }

    method Open(b1: Block)
      modifies this
      ensures table == if b1 in old(table) then old(table) else old(table)[b1 := map[]]
    {
      if b1 !in table {
        table := table[b1 := map[]];
      }
    }

    method Record(b1: Block, b2: Block, r: bool)
      requires b1 in table
      modifies this
      ensures table == old(table)[b1 := old(table)[b1][b2 := r]]
    {
      table := table[b1 := table[b1][b2 := r]];
    }
  }

  method PushUnvisited(que: seq<Block>, succs: seq<Block>, vis: set<Block>) returns (que': seq<Block>)
    ensures que' == que + Unvisited(succs, vis)
  {
    que' := que;
    for i := 0 to |succs|
      invariant que' == que + Unvisited(succs[..i], vis)
    {
      assert succs[..i + 1][..i] == succs[..i];
      if succs[i] !in vis {
        que' := que' + [succs[i]];
      }
    }
    assert succs[..|succs|] == succs;
  }

  // Looks for b2 breadth first.  A block is marked when it is taken off the
  // queue, so it can be queued, and expanded, more than once.
  method Search(c: SuccLists, b1: Block, b2: Block, mem: Memo?) returns (r: bool)
    requires mem != null ==> mem.Valid(c)
    ensures r <==> Reach(GraphOf(c), b1, b2)
  {
    var vis: set<Block>, que := {}, [b1];
    ReachRefl(GraphOf(c), b1);
    while que != []
      invariant Searching(c, b1, b2, que, vis)
      decreases BlocksOf(c) + {b1} - vis, Stale(que, vis)
    {
      var cur := que[0];
      if cur == b2 {
        return true;
      }
      if mem != null && cur in mem.table && b2 in mem.table[cur] && mem.table[cur][b2] {
        ReachTrans(GraphOf(c), b1, cur, b2);
        return true;
      }
      SearchingStep(c, b1, b2, que, vis);
      SearchingDecreases(c, b1, b2, que, vis);
      vis := vis + {cur};
      que := PushUnvisited(que[1..], Succs(c, cur), vis);
    }
    SearchingDone(c, b1, b2, vis);
    return false;
  }

  // Whether control can get from b1 to b2; every block reaches itself.  The
  // answer does not depend on what the memo holds, as long as that is right.
  method HasPathTo(c: SuccLists, b1: Block, b2: Block, mem: Memo?) returns (r: bool)
    requires mem != null ==> mem.Valid(c)
    modifies mem
    ensures r <==> Reach(GraphOf(c), b1, b2)
    ensures mem != null ==> mem.Valid(c) && b1 in mem.table && b2 in mem.table[b1]
    ensures mem != null ==> mem.table - {b1} == old(mem.table) - {b1}
    ensures mem != null && b1 in old(mem.table) ==> mem.table[b1] - {b2} == old(mem.table)[b1] - {b2}
  {
    if mem != null {
      mem.Open(b1);
      if b2 in mem.table[b1] {
        return mem.table[b1][b2];
      }
    }
    r := Search(c, b1, b2, mem);
    if mem != null {
      mem.Record(b1, b2, r);
    }
  }

  // A series of questions sharing one memo is answered as without it.
  method HasPaths(c: SuccLists, questions: seq<(Block, Block)>, mem: Memo?) returns (answers: seq<bool>)
    requires mem != null ==> mem.Valid(c)
    modifies mem
    ensures mem != null ==> mem.Valid(c)
    ensures |answers| == |questions|
    ensures forall i :: 0 <= i < |answers| ==> (answers[i] <==> Reach(GraphOf(c), questions[i].0, questions[i].1))
  {
    answers := [];
    for i := 0 to |questions|
      invariant mem != null ==> mem.Valid(c)
      invariant |answers| == i
      invariant forall j :: 0 <= j < i ==> (answers[j] <==> Reach(GraphOf(c), questions[j].0, questions[j].1))
    {
      var r := HasPathTo(c, questions[i].0, questions[i].1, mem);
      answers := answers + [r];
    }
  }
}
