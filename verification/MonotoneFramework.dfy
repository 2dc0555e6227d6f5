// The monotone framework, for any lattice of finite height: the equations of a
// control flow graph, and what a worklist that solves them keeps.
module MonotoneFramework {
  import opened Options
  import opened Paths

  type Block = int
  type Instr = int

  // The blocks of a function with their edges and instructions.  A function
  // that is only declared has no blocks, and its entry means nothing.
  datatype Cfg = Cfg(blocks: set<Block>, entry: Block,
                     preds: map<Block, seq<Block>>, succs: map<Block, seq<Block>>,
                     instrs: map<Block, seq<Instr>>)

  predicate HasSucc(c: Cfg, a: Block, b: Block) {
    a in c.succs && b in c.succs[a]
  }

  predicate HasPred(c: Cfg, b: Block, a: Block) {
    b in c.preds && a in c.preds[b]
  }

  ghost predicate ValidCfg(c: Cfg) {
    && (c.blocks != {} ==> c.entry in c.blocks)
    && c.preds.Keys == c.blocks && c.succs.Keys == c.blocks && c.instrs.Keys == c.blocks
    && (forall a, b {:trigger HasSucc(c, a, b)} {:trigger HasPred(c, b, a)} ::
          (HasSucc(c, a, b) <==> HasPred(c, b, a)) && (HasSucc(c, a, b) ==> a in c.blocks && b in c.blocks))
  }

  function Steps(c: Cfg): Graph<Block> {
    map b | b in c.succs :: set s | s in c.succs[b]
  }

  ghost predicate Reachable(c: Cfg, b: Block) {
    Reach(Steps(c), c.entry, b)
  }

  // The blocks scheduled at first.
  function StartWork(c: Cfg): seq<Block> {
    if c.blocks == {} then [] else [c.entry]
  }

  // The elements that satisfy good form a join semilattice with a least
  // element.  atoms maps them into the subsets of the finite set all, in order.
  datatype Lattice<!L, !A> = Lattice(
    good: L -> bool, leq: (L, L) -> bool, join: (L, L) -> L, bottom: L, atoms: L -> set<A>, all: set<A>)

  ghost predicate Laws<L(!new), A(!new)>(l: Lattice<L, A>) {
    && l.good(l.bottom)
    && (forall x :: l.leq(l.bottom, x))
    && (forall x :: l.leq(x, x))
    && (forall x, y, z :: l.leq(x, y) && l.leq(y, z) ==> l.leq(x, z))
    && (forall x, y :: l.good(x) && l.good(y) && l.leq(x, y) && l.leq(y, x) ==> x == y)
    && (forall x, y :: l.good(x) && l.good(y) ==> l.good(l.join(x, y)) && l.leq(x, l.join(x, y)) && l.leq(y, l.join(x, y)))
    && (forall x, y, z :: l.good(x) && l.good(y) && l.good(z) && l.leq(x, z) && l.leq(y, z) ==> l.leq(l.join(x, y), z))
    && (forall x :: l.good(x) ==> l.atoms(x) <= l.all)
    && (forall x, y :: l.good(x) && l.good(y) && l.leq(x, y) && x != y ==> l.atoms(x) < l.atoms(y))
  }

  type Transfer<!L> = (Instr, L) -> L

  // The transfer of every instruction is monotone.
  ghost predicate Monotone<L(!new), A(!new)>(l: Lattice<L, A>, tf: Transfer<L>) {
    && (forall i, x :: l.good(x) ==> l.good(tf(i, x)))
    && (forall i, x, y :: l.good(x) && l.good(y) && l.leq(x, y) ==> l.leq(tf(i, x), tf(i, y)))
  }

  function RunInstrs<L>(tf: Transfer<L>, instrs: seq<Instr>, x: L): L {
    if instrs == [] then x
    else tf(instrs[|instrs| - 1], RunInstrs(tf, instrs[..|instrs| - 1], x))
  }

  // The merge, in order, of the values of those predecessors that have one.
  function MergeOf<L>(join: (L, L) -> L, bottom: L, ends: map<Block, L>, preds: seq<Block>): L {
    if preds == [] then bottom
    else
      var rest, last := MergeOf(join, bottom, ends, preds[..|preds| - 1]), preds[|preds| - 1];
      if last in ends then join(rest, ends[last]) else rest
  }

  function BlockIn<L>(c: Cfg, join: (L, L) -> L, bottom: L, init: L, ends: map<Block, L>, b: Block): L
    requires b in c.preds
  {
    if c.preds[b] == [] then join(bottom, init) else MergeOf(join, bottom, ends, c.preds[b])
  }

  function BlockResult<L>(c: Cfg, join: (L, L) -> L, bottom: L, tf: Transfer<L>, init: L, ends: map<Block, L>, b: Block): L
    requires b in c.preds && b in c.instrs
  {
    RunInstrs(tf, c.instrs[b], BlockIn(c, join, bottom, init, ends, b))
  }

  // The right-hand side of the equation of block b.
  function BlockOut<L, A>(c: Cfg, l: Lattice<L, A>, tf: Transfer<L>, init: L, ends: map<Block, L>, b: Block): L
    requires b in c.preds && b in c.instrs
  {
    BlockResult(c, l.join, l.bottom, tf, init, ends, b)
  }

  ghost predicate AllGood<L, A>(l: Lattice<L, A>, ends: map<Block, L>) {
    forall b :: b in ends ==> l.good(ends[b])
  }

  ghost predicate Below<L, A>(l: Lattice<L, A>, e: map<Block, L>, x: map<Block, L>) {
    forall b :: b in e ==> b in x && l.leq(e[b], x[b])
  }

  // x is at least the right-hand side of the equation of every reachable block.
  ghost predicate PostFixpoint<L, A>(c: Cfg, l: Lattice<L, A>, tf: Transfer<L>, init: L, x: map<Block, L>)
    requires ValidCfg(c)
  {
    && AllGood(l, x)
    && forall b :: b in c.blocks && Reachable(c, b) ==> b in x && l.leq(BlockOut(c, l, tf, init, x, b), x[b])
  }

  // Every reachable block, and no other, has the value that its equation gives.
  ghost predicate Solution<L>(c: Cfg, join: (L, L) -> L, bottom: L, tf: Transfer<L>, init: L, ends: map<Block, L>)
    requires ValidCfg(c)
  {
    && (forall b :: b in ends <==> b in c.blocks && Reachable(c, b))
    && (forall b :: b in ends && b in c.blocks ==> ends[b] == BlockResult(c, join, bottom, tf, init, ends, b))
  }

  // ends solves the equations, and every other solution is above it.
  ghost predicate LeastSolution<L(!new), A>(c: Cfg, l: Lattice<L, A>, tf: Transfer<L>, init: L, ends: map<Block, L>)
    requires ValidCfg(c)
  {
    && Solution(c, l.join, l.bottom, tf, init, ends)
    && AllGood(l, ends)
    && (forall x :: PostFixpoint(c, l, tf, init, x) ==> Below(l, ends, x))
  }

  // ------------------------------------------------------------ monotonicity

  lemma {:induction false} MergeOfGood<L(!new), A(!new)>(l: Lattice<L, A>, ends: map<Block, L>, preds: seq<Block>)
    requires Laws(l) && AllGood(l, ends)
    ensures l.good(MergeOf(l.join, l.bottom, ends, preds))
  {
    if preds != [] {
      MergeOfGood(l, ends, preds[..|preds| - 1]);
    }
  }

  lemma {:induction false} MergeOfMono<L(!new), A(!new)>(l: Lattice<L, A>, e: map<Block, L>, x: map<Block, L>, preds: seq<Block>)
    requires Laws(l) && AllGood(l, e) && AllGood(l, x) && Below(l, e, x)
    ensures l.leq(MergeOf(l.join, l.bottom, e, preds), MergeOf(l.join, l.bottom, x, preds))
  {
    if preds != [] {
      var rest, last := preds[..|preds| - 1], preds[|preds| - 1];
      MergeOfMono(l, e, x, rest);
      MergeOfGood(l, e, rest);
      MergeOfGood(l, x, rest);
      var me, mx := MergeOf(l.join, l.bottom, e, rest), MergeOf(l.join, l.bottom, x, rest);
      if last in x {
        assert l.leq(mx, l.join(mx, x[last])) && l.leq(x[last], l.join(mx, x[last]));
        assert l.leq(me, l.join(mx, x[last]));
        if last in e {
          assert l.leq(e[last], l.join(mx, x[last]));
        }
      }
    }
  }

  // The merge looks at the given predecessors only.
  lemma {:induction false} MergeOfLocal<L>(join: (L, L) -> L, bottom: L, e: map<Block, L>, x: map<Block, L>, preds: seq<Block>)
    requires forall p :: p in preds ==> (p in e <==> p in x) && (p in e ==> e[p] == x[p])
    ensures MergeOf(join, bottom, e, preds) == MergeOf(join, bottom, x, preds)
  {
    if preds != [] {
      assert preds[|preds| - 1] in preds;
      MergeOfLocal(join, bottom, e, x, preds[..|preds| - 1]);
    }
  }

  lemma {:induction false} RunInstrsGood<L(!new), A(!new)>(l: Lattice<L, A>, tf: Transfer<L>, instrs: seq<Instr>, x: L)
    requires Monotone(l, tf) && l.good(x)
    ensures l.good(RunInstrs(tf, instrs, x))
  {
    if instrs != [] {
      var last, y := instrs[|instrs| - 1], RunInstrs(tf, instrs[..|instrs| - 1], x);
      RunInstrsGood(l, tf, instrs[..|instrs| - 1], x);
      assert l.good(tf(last, y));
    }
  }

  lemma {:induction false} RunInstrsMono<L(!new), A(!new)>(l: Lattice<L, A>, tf: Transfer<L>, instrs: seq<Instr>, x: L, y: L)
    requires Monotone(l, tf) && l.good(x) && l.good(y) && l.leq(x, y)
    ensures l.leq(RunInstrs(tf, instrs, x), RunInstrs(tf, instrs, y))
  {
    if instrs != [] {
      var rest, last := instrs[..|instrs| - 1], instrs[|instrs| - 1];
      RunInstrsMono(l, tf, rest, x, y);
      RunInstrsGood(l, tf, rest, x);
      RunInstrsGood(l, tf, rest, y);
      assert l.leq(tf(last, RunInstrs(tf, rest, x)), tf(last, RunInstrs(tf, rest, y)));
    }
  }

  lemma BlockOutGood<L(!new), A(!new)>(c: Cfg, l: Lattice<L, A>, tf: Transfer<L>, init: L, ends: map<Block, L>, b: Block)
    requires Laws(l) && Monotone(l, tf) && l.good(init) && AllGood(l, ends)
    requires b in c.preds && b in c.instrs
    ensures l.good(BlockIn(c, l.join, l.bottom, init, ends, b))
    ensures l.good(BlockOut(c, l, tf, init, ends, b))
  {
    MergeOfGood(l, ends, c.preds[b]);
    RunInstrsGood(l, tf, c.instrs[b], BlockIn(c, l.join, l.bottom, init, ends, b));
  }

  lemma BlockOutMono<L(!new), A(!new)>(c: Cfg, l: Lattice<L, A>, tf: Transfer<L>, init: L,
                                       e: map<Block, L>, x: map<Block, L>, b: Block)
    requires Laws(l) && Monotone(l, tf) && l.good(init)
    requires AllGood(l, e) && AllGood(l, x) && Below(l, e, x)
    requires b in c.preds && b in c.instrs
    ensures l.leq(BlockOut(c, l, tf, init, e, b), BlockOut(c, l, tf, init, x, b))
  {
    BlockOutGood(c, l, tf, init, e, b);
    BlockOutGood(c, l, tf, init, x, b);
    MergeOfMono(l, e, x, c.preds[b]);
    RunInstrsMono(l, tf, c.instrs[b], BlockIn(c, l.join, l.bottom, init, e, b), BlockIn(c, l.join, l.bottom, init, x, b));
  }

  lemma BlockResultLocal<L>(c: Cfg, join: (L, L) -> L, bottom: L, tf: Transfer<L>, init: L,
                            e: map<Block, L>, x: map<Block, L>, b: Block)
    requires b in c.preds && b in c.instrs
    requires forall p :: p in c.preds[b] ==> (p in e <==> p in x) && (p in e ==> e[p] == x[p])
    ensures BlockResult(c, join, bottom, tf, init, e, b) == BlockResult(c, join, bottom, tf, init, x, b)
  {
    MergeOfLocal(join, bottom, e, x, c.preds[b]);
  }

  // ------------------------------------------------------------ what the equations say

  // v is the least good element above the values of those predecessors that
  // have one.
  ghost predicate IsMerge<L(!new), A>(l: Lattice<L, A>, ends: map<Block, L>, preds: seq<Block>, v: L) {
    && l.good(v)
    && (forall p :: p in preds && p in ends ==> l.leq(ends[p], v))
    && (forall z :: l.good(z) && (forall p :: p in preds && p in ends ==> l.leq(ends[p], z)) ==> l.leq(v, z))
  }

  lemma {:induction false} MergeOfAbove<L(!new), A(!new)>(l: Lattice<L, A>, ends: map<Block, L>, preds: seq<Block>, p: Block)
    requires Laws(l) && AllGood(l, ends) && p in preds && p in ends
    ensures l.leq(ends[p], MergeOf(l.join, l.bottom, ends, preds))
  {
    var rest, last := preds[..|preds| - 1], preds[|preds| - 1];
    var r := MergeOf(l.join, l.bottom, ends, rest);
    MergeOfGood(l, ends, rest);
    assert preds == rest + [last];
    if p in rest {
      MergeOfAbove(l, ends, rest, p);
    }
    if last in ends {
      assert l.leq(r, l.join(r, ends[last])) && l.leq(ends[last], l.join(r, ends[last]));
    }
  }

  lemma {:induction false} MergeOfBelow<L(!new), A(!new)>(l: Lattice<L, A>, ends: map<Block, L>, preds: seq<Block>, z: L)
    requires Laws(l) && AllGood(l, ends) && l.good(z) && forall p :: p in preds && p in ends ==> l.leq(ends[p], z)
    ensures l.leq(MergeOf(l.join, l.bottom, ends, preds), z)
  {
    if preds != [] {
      var rest, last := preds[..|preds| - 1], preds[|preds| - 1];
      assert preds == rest + [last];
      MergeOfBelow(l, ends, rest, z);
      MergeOfGood(l, ends, rest);
    }
  }

  // Merging predecessors gives their least upper bound, whatever their order.
  lemma MergeOfIsMerge<L(!new), A(!new)>(l: Lattice<L, A>, ends: map<Block, L>, preds: seq<Block>)
    requires Laws(l) && AllGood(l, ends)
    ensures IsMerge(l, ends, preds, MergeOf(l.join, l.bottom, ends, preds))
  {
    MergeOfGood(l, ends, preds);
    forall p | p in preds && p in ends ensures l.leq(ends[p], MergeOf(l.join, l.bottom, ends, preds)) {
      MergeOfAbove(l, ends, preds, p);
    }
    forall z | l.good(z) && (forall p :: p in preds && p in ends ==> l.leq(ends[p], z))
      ensures l.leq(MergeOf(l.join, l.bottom, ends, preds), z)
    {
      MergeOfBelow(l, ends, preds, z);
    }
  }

  // What holds where control enters a block: the initial element in a block
  // that has no predecessors, and else the merge of those there are.
  ghost predicate Enters<L(!new), A>(c: Cfg, l: Lattice<L, A>, init: L, ends: map<Block, L>, b: Block, v: L)
    requires b in c.preds
  {
    if c.preds[b] == [] then v == init else IsMerge(l, ends, c.preds[b], v)
  }

  lemma BlockInEnters<L(!new), A(!new)>(c: Cfg, l: Lattice<L, A>, init: L, ends: map<Block, L>, b: Block, v: L)
    requires Laws(l) && AllGood(l, ends) && l.good(init) && b in c.preds
    ensures Enters(c, l, init, ends, b, v) <==> v == BlockIn(c, l.join, l.bottom, init, ends, b)
  {
    if c.preds[b] == [] {
      var j := l.join(l.bottom, init);
      assert l.good(l.bottom) && l.good(j) && l.leq(init, j) && l.leq(l.bottom, init) && l.leq(init, init);
      assert l.leq(j, init);
    } else {
      MergeOfIsMerge(l, ends, c.preds[b]);
    }
  }

  // The values before, between and after the instructions of a block.
  ghost predicate Trace<L>(tf: Transfer<L>, instrs: seq<Instr>, vals: seq<L>) {
    |vals| == |instrs| + 1 && forall k :: 0 <= k < |instrs| ==> vals[k + 1] == tf(instrs[k], vals[k])
  }

  // The value at the end of b is reached from what holds at its start by one
  // application of the transfer for each instruction, in order.
  ghost predicate FlowsThrough<L(!new), A>(c: Cfg, l: Lattice<L, A>, tf: Transfer<L>, init: L, ends: map<Block, L>, b: Block, v: L)
    requires b in c.preds && b in c.instrs
  {
    exists vals :: Trace(tf, c.instrs[b], vals) && Enters(c, l, init, ends, b, vals[0]) && vals[|c.instrs[b]|] == v
  }

  lemma {:induction false} TraceEnds<L>(tf: Transfer<L>, instrs: seq<Instr>, vals: seq<L>)
    requires Trace(tf, instrs, vals)
    ensures vals[|instrs|] == RunInstrs(tf, instrs, vals[0])
    decreases |instrs|
  {
    var n := |instrs|;
    if n > 0 {
      assert Trace(tf, instrs[..n - 1], vals[..n]);
      TraceEnds(tf, instrs[..n - 1], vals[..n]);
    }
  }

  lemma {:induction false} TraceExists<L>(tf: Transfer<L>, instrs: seq<Instr>, x: L) returns (vals: seq<L>)
    ensures Trace(tf, instrs, vals) && vals[0] == x
    decreases |instrs|
  {
    var n := |instrs|;
    if n == 0 {
      vals := [x];
    } else {
      var before := TraceExists(tf, instrs[..n - 1], x);
      vals := before + [tf(instrs[n - 1], before[n - 1])];
    }
  }

  // The right-hand side of a block's equation is the one value that flows
  // through the block.
  lemma BlockOutFlows<L(!new), A(!new)>(c: Cfg, l: Lattice<L, A>, tf: Transfer<L>, init: L, ends: map<Block, L>, b: Block, v: L)
    requires Laws(l) && AllGood(l, ends) && l.good(init) && b in c.preds && b in c.instrs
    ensures FlowsThrough(c, l, tf, init, ends, b, v) <==> v == BlockOut(c, l, tf, init, ends, b)
  {
    var x := BlockIn(c, l.join, l.bottom, init, ends, b);
    if FlowsThrough(c, l, tf, init, ends, b, v) {
      var vals :| Trace(tf, c.instrs[b], vals) && Enters(c, l, init, ends, b, vals[0]) && vals[|c.instrs[b]|] == v;
      BlockInEnters(c, l, init, ends, b, vals[0]);
      TraceEnds(tf, c.instrs[b], vals);
    }
    BlockInEnters(c, l, init, ends, b, x);
    var vals := TraceExists(tf, c.instrs[b], x);
    TraceEnds(tf, c.instrs[b], vals);
  }

  // Every reachable block, and no other, has a value, and it is the one that
  // flows through the block.
  ghost predicate Dataflow<L(!new), A>(c: Cfg, l: Lattice<L, A>, tf: Transfer<L>, init: L, ends: map<Block, L>)
    requires ValidCfg(c)
  {
    && (forall b :: b in ends <==> b in c.blocks && Reachable(c, b))
    && (forall b :: b in ends && b in c.blocks ==> FlowsThrough(c, l, tf, init, ends, b, ends[b]))
  }

  lemma SolutionIsDataflow<L(!new), A(!new)>(c: Cfg, l: Lattice<L, A>, tf: Transfer<L>, init: L, ends: map<Block, L>)
    requires ValidCfg(c) && Laws(l) && AllGood(l, ends) && l.good(init)
    ensures Solution(c, l.join, l.bottom, tf, init, ends) <==> Dataflow(c, l, tf, init, ends)
  {
    forall b | b in ends && b in c.blocks
      ensures FlowsThrough(c, l, tf, init, ends, b, ends[b]) <==> ends[b] == BlockOut(c, l, tf, init, ends, b)
    {
      BlockOutFlows(c, l, tf, init, ends, b, ends[b]);
    }
  }

  // Edges are what the lists of successors and predecessors say, which agree.
  lemma EdgesAreListed(c: Cfg, a: Block, b: Block)
    requires ValidCfg(c) && a in c.blocks && b in c.blocks
    ensures b in c.succs[a] <==> a in c.preds[b]
    ensures b in Succ(Steps(c), a) <==> b in c.succs[a]
    ensures HasSucc(c, a, b) <==> b in c.succs[a]
  {
    assert HasSucc(c, a, b) <==> HasPred(c, b, a);
  }

  // ------------------------------------------------------------ the worklist, with any transfer

  // The blocks a round adds are reachable, and no successor is forgotten.
  ghost predicate Tracked<L>(c: Cfg, ends: map<Block, L>, work: seq<Block>)
    requires ValidCfg(c)
  {
    && (forall b :: b in ends || b in work ==> b in c.blocks && Reachable(c, b))
    && (c.blocks != {} ==> c.entry in ends || c.entry in work)
    && (forall a, b :: a in ends && HasSucc(c, a, b) ==> b in ends || b in work)
  }

  lemma TrackedSteps<L>(c: Cfg, ends: map<Block, L>, ends': map<Block, L>, b: Block, v: L, work: seq<Block>, work': seq<Block>)
    requires ValidCfg(c) && b in c.blocks && Tracked(c, ends, [b] + work)
    requires ends' == ends[b := v]
    requires forall x :: x in work' <==> x in work || (ends' != ends && HasSucc(c, b, x))
    ensures Tracked(c, ends', work')
  {
    assert b in [b] + work;
    forall x | x in work' ensures x in c.blocks && Reachable(c, x) {
      if x in work {
        assert x in [b] + work;
      } else {
        assert x in Succ(Steps(c), b);
        ReachSnoc(Steps(c), c.entry, b, x);
      }
    }
    forall a, s | a in ends' && HasSucc(c, a, s) ensures s in ends' || s in work' {
      if a != b || ends' == ends {
        assert s in ends || s in [b] + work;
      }
    }
  }

  lemma TrackedDone<L>(c: Cfg, ends: map<Block, L>)
    requires ValidCfg(c) && Tracked(c, ends, [])
    ensures forall b :: b in ends <==> b in c.blocks && Reachable(c, b)
  {
    var done := set b | b in c.blocks && b in ends;
    forall a, s | a in done && s in Succ(Steps(c), a) ensures s in done {
      assert HasSucc(c, a, s);
    }
    forall b | b in c.blocks && Reachable(c, b) ensures b in ends {
      ReachStays(Steps(c), done, c.entry, b);
    }
  }

  lemma FirstIsBlock<L>(c: Cfg, ends: map<Block, L>, work: seq<Block>)
    requires ValidCfg(c) && Tracked(c, ends, work) && work != []
    ensures work[0] in c.blocks
  {
    var b := work[0];
    assert b in work;
  }

  // A function without blocks never has work.
  lemma NothingTracked<L>(c: Cfg, ends: map<Block, L>, work: seq<Block>)
    requires ValidCfg(c) && Tracked(c, ends, work) && c.blocks == {}
    ensures work == []
  {
    if work != [] {
      FirstIsBlock(c, ends, work);
    }
  }

  // What the loop keeps whether or not the transfer is monotone: every block
  // with a value solves its equation unless it is on the worklist.
  ghost predicate Consistent<L>(c: Cfg, join: (L, L) -> L, bottom: L, tf: Transfer<L>, init: L,
                                ends: map<Block, L>, work: seq<Block>)
    requires ValidCfg(c)
  {
    && Tracked(c, ends, work)
    && forall b :: b in ends && b in c.blocks && b !in work ==> ends[b] == BlockResult(c, join, bottom, tf, init, ends, b)
  }

  lemma ConsistentStarts<L>(c: Cfg, join: (L, L) -> L, bottom: L, tf: Transfer<L>, init: L)
    requires ValidCfg(c)
    ensures Consistent(c, join, bottom, tf, init, map[], StartWork(c))
  {
    ReachRefl(Steps(c), c.entry);
  }

  lemma ConsistentSteps<L>(c: Cfg, join: (L, L) -> L, bottom: L, tf: Transfer<L>, init: L,
                           ends: map<Block, L>, ends': map<Block, L>, b: Block, work: seq<Block>, work': seq<Block>)
    requires ValidCfg(c) && b in c.blocks && Consistent(c, join, bottom, tf, init, ends, [b] + work)
    requires ends' == ends[b := BlockResult(c, join, bottom, tf, init, ends, b)]
    requires forall x :: x in work' <==> x in work || (ends' != ends && HasSucc(c, b, x))
    ensures Consistent(c, join, bottom, tf, init, ends', work')
  {
    TrackedSteps(c, ends, ends', b, ends'[b], work, work');
    forall x | x in ends' && x in c.blocks && x !in work'
      ensures ends'[x] == BlockResult(c, join, bottom, tf, init, ends', x)
    {
      assert x == b || (x in [b] + work <==> x in work);
      if ends' != ends {
        assert !HasPred(c, x, b);
        BlockResultLocal(c, join, bottom, tf, init, ends, ends', x);
      }
    }
  }

  // However the transfer behaves: when the worklist is empty the equations hold.
  lemma ConsistentIsSolved<L>(c: Cfg, join: (L, L) -> L, bottom: L, tf: Transfer<L>, init: L, ends: map<Block, L>)
    requires ValidCfg(c) && Consistent(c, join, bottom, tf, init, ends, [])
    ensures Solution(c, join, bottom, tf, init, ends)
  {
    TrackedDone(c, ends);
  }

  // ------------------------------------------------------------ the worklist, with a monotone transfer

  // What the worklist loop keeps.
  ghost predicate Converging<L(!new), A(!new)>(c: Cfg, l: Lattice<L, A>, tf: Transfer<L>, init: L,
                                               ends: map<Block, L>, work: seq<Block>)
    requires ValidCfg(c)
  {
    && AllGood(l, ends)
    && Consistent(c, l.join, l.bottom, tf, init, ends, work)
    && BelowEquations(c, l, tf, init, ends)
    && (forall x :: PostFixpoint(c, l, tf, init, x) ==> Below(l, ends, x))
  }

  // Every block with a value is at most what its equation gives.
  ghost predicate BelowEquations<L, A>(c: Cfg, l: Lattice<L, A>, tf: Transfer<L>, init: L, ends: map<Block, L>)
    requires ValidCfg(c)
  {
    forall b :: b in ends && b in c.blocks ==> l.leq(ends[b], BlockOut(c, l, tf, init, ends, b))
  }

  lemma ConvergingStarts<L(!new), A(!new)>(c: Cfg, l: Lattice<L, A>, tf: Transfer<L>, init: L)
    requires ValidCfg(c)
    ensures Converging(c, l, tf, init, map[], StartWork(c))
  {
    ConsistentStarts(c, l.join, l.bottom, tf, init);
  }

  // Recomputing a block only raises its value, and stays below every solution.
  lemma RecomputeIsSafe<L(!new), A(!new)>(c: Cfg, l: Lattice<L, A>, tf: Transfer<L>, init: L, ends: map<Block, L>, b: Block)
    requires ValidCfg(c) && Laws(l) && Monotone(l, tf) && l.good(init)
    requires AllGood(l, ends) && b in c.blocks && Reachable(c, b)
    requires b in ends ==> l.leq(ends[b], BlockOut(c, l, tf, init, ends, b))
    requires forall x :: PostFixpoint(c, l, tf, init, x) ==> Below(l, ends, x)
    ensures var ends' := ends[b := BlockOut(c, l, tf, init, ends, b)];
      AllGood(l, ends') && Below(l, ends, ends')
      && forall x :: PostFixpoint(c, l, tf, init, x) ==> Below(l, ends', x)
  {
    var g := BlockOut(c, l, tf, init, ends, b);
    BlockOutGood(c, l, tf, init, ends, b);
    forall x | PostFixpoint(c, l, tf, init, x) ensures Below(l, ends[b := g], x) {
      BlockOutMono(c, l, tf, init, ends, x, b);
    }
  }

  // What the blocks could still gain.
  ghost function Missing<L, A>(c: Cfg, l: Lattice<L, A>, ends: map<Block, L>): set<(Block, Option<A>)> {
    (set b | b in c.blocks && b !in ends :: (b, None))
    + (set b, a | b in c.blocks && a in l.all && !(b in ends && a in l.atoms(ends[b])) :: (b, Some(a)))
  }

  lemma MissingShrinks<L(!new), A(!new)>(c: Cfg, l: Lattice<L, A>, ends: map<Block, L>, b: Block, x: L)
    requires Laws(l) && b in c.blocks && AllGood(l, ends) && l.good(x)
    requires b in ends ==> l.leq(ends[b], x) && ends[b] != x
    ensures Missing(c, l, ends[b := x]) < Missing(c, l, ends)
  {
    var m, m' := Missing(c, l, ends), Missing(c, l, ends[b := x]);
    if b in ends {
      var a :| a in l.atoms(x) && a !in l.atoms(ends[b]);
      assert (b, Some(a)) in m && (b, Some(a)) !in m';
    } else {
      assert (b, None) in m && (b, None) !in m';
    }
    assert m' <= m;
  }

  // Raising one value raises the right-hand sides of all equations.
  lemma StaysBelow<L(!new), A(!new)>(c: Cfg, l: Lattice<L, A>, tf: Transfer<L>, init: L,
                                     ends: map<Block, L>, ends': map<Block, L>, b: Block)
    requires ValidCfg(c) && Laws(l) && Monotone(l, tf) && l.good(init)
    requires b in c.blocks && BelowEquations(c, l, tf, init, ends)
    requires ends' == ends[b := BlockOut(c, l, tf, init, ends, b)]
    requires AllGood(l, ends) && AllGood(l, ends') && Below(l, ends, ends')
    ensures BelowEquations(c, l, tf, init, ends')
  {
    forall x | x in ends' && x in c.blocks ensures l.leq(ends'[x], BlockOut(c, l, tf, init, ends', x)) {
      BlockOutMono(c, l, tf, init, ends, ends', x);
    }
  }

  // One round of the loop: b was on the worklist, has been recomputed, and its
  // successors are on the worklist if its value is new.
  lemma ConvergingSteps<L(!new), A(!new)>(c: Cfg, l: Lattice<L, A>, tf: Transfer<L>, init: L,
                                          ends: map<Block, L>, ends': map<Block, L>,
                                          b: Block, work: seq<Block>, work': seq<Block>)
    requires ValidCfg(c) && Laws(l) && Monotone(l, tf) && l.good(init)
    requires b in c.blocks && Converging(c, l, tf, init, ends, [b] + work)
    requires ends' == ends[b := BlockOut(c, l, tf, init, ends, b)]
    requires forall x :: x in work' <==> x in work || (ends' != ends && HasSucc(c, b, x))
    ensures Converging(c, l, tf, init, ends', work')
    ensures Missing(c, l, ends') < Missing(c, l, ends) || ends' == ends
  {
    assert b in [b] + work;
    ConsistentSteps(c, l.join, l.bottom, tf, init, ends, ends', b, work, work');
    RecomputeIsSafe(c, l, tf, init, ends, b);
    StaysBelow(c, l, tf, init, ends, ends', b);
    if ends' != ends {
      MissingShrinks(c, l, ends, b, ends'[b]);
    }
  }

  lemma ConvergedIsLeast<L(!new), A(!new)>(c: Cfg, l: Lattice<L, A>, tf: Transfer<L>, init: L, ends: map<Block, L>)
    requires ValidCfg(c) && Converging(c, l, tf, init, ends, [])
    ensures LeastSolution(c, l, tf, init, ends)
  {
    ConsistentIsSolved(c, l.join, l.bottom, tf, init, ends);
  }

  // Two least solutions are the same, whatever order found them.
  lemma LeastSolutionUnique<L(!new), A(!new)>(c: Cfg, l: Lattice<L, A>, tf: Transfer<L>, init: L,
                                              e: map<Block, L>, x: map<Block, L>)
    requires ValidCfg(c) && Laws(l) && LeastSolution(c, l, tf, init, e) && LeastSolution(c, l, tf, init, x)
    ensures e == x
  {
    assert PostFixpoint(c, l, tf, init, e) && PostFixpoint(c, l, tf, init, x);
    assert Below(l, e, x) && Below(l, x, e);
    forall b | b in e ensures b in x && e[b] == x[b] {}
    forall b | b in x ensures b in e {}
  }
}
