// The block worklist of one function: it computes the least solution of the
// function's equations over escape graphs.
module BlockFixpoint {
  import opened Options
  import opened EscapeLattice
  import opened EscapeGraphs
  import MF = MonotoneFramework

  type Ends = map<MF.Block, EscGraph>

  // ------------------------------------------------------------ the lattice

  datatype Atom = EdgeAtom(edge: Edge) | StatusAtom(node: Node, level: Status)

  ghost function AtomsOf(g: EscGraph): set<Atom> {
    (set a, b, k | a in g.edges && b in g.edges[a] && k in g.edges[a][b] :: EdgeAtom(Edge(a, b, k)))
    + (set n, l: Status | n in g.status && l in {0, 1, 2} && l <= g.status[n] :: StatusAtom(n, l))
  }

  ghost function Atoms(u: set<Node>): set<Atom> {
    (set a, b, k | a in u && b in u && k in EDGE_ALL :: EdgeAtom(Edge(a, b, k)))
    + (set n, l: Status | n in u && l in {0, 1, 2} :: StatusAtom(n, l))
  }

  // The join as a value.
  ghost const JOIN: (EscGraph, EscGraph) -> EscGraph := (g, h) => Join(g, h)

  // The closed escape graphs whose nodes are in the finite set u.
  ghost function EscLattice(u: set<Node>): MF.Lattice<EscGraph, Atom> {
    MF.Lattice((g: EscGraph) => Good(g) && g.status.Keys <= u,
               (g, h) => LessEq(g, h),
               JOIN,
               EMPTY,
               (g: EscGraph) => AtomsOf(g),
               Atoms(u))
  }

  lemma AtomsBounded(g: EscGraph, u: set<Node>)
    requires Good(g) && g.status.Keys <= u
    ensures AtomsOf(g) <= Atoms(u)
  {
    AllKinds();
    forall a, b, k | a in g.edges && b in g.edges[a] && k in g.edges[a][b] ensures EdgeAtom(Edge(a, b, k)) in Atoms(u) {
      assert Arc(g, a, b);
    }
  }

  lemma AtomsMono(g: EscGraph, h: EscGraph)
    requires Good(g) && Good(h) && LessEq(g, h)
    ensures AtomsOf(g) <= AtomsOf(h)
    ensures g != h ==> AtomsOf(g) != AtomsOf(h)
  {
    forall e | HasEdge(g, e) ensures EdgeAtom(e) in AtomsOf(h) {
      assert HasEdge(h, e);
    }
    if AtomsOf(g) == AtomsOf(h) {
      forall e | HasEdge(h, e) ensures HasEdge(g, e) {
        assert e == Edge(e.src, e.dest, e.mask);
        assert EdgeAtom(e) in AtomsOf(h);
      }
      forall n | n in h.status ensures n in g.status && h.status[n] <= g.status[n] {
        assert StatusAtom(n, h.status[n]) in AtomsOf(h);
      }
      Antisymmetric(g, h);
    }
  }

  lemma EscLaws(u: set<Node>)
    ensures MF.Laws(EscLattice(u))
  {
    var l := EscLattice(u);
    assert Good(EMPTY);
    forall x, y, z | l.leq(x, y) && l.leq(y, z) ensures l.leq(x, z) {
      LessEqTrans(x, y, z);
    }
    forall x, y | l.good(x) && l.good(y) && l.leq(x, y) && l.leq(y, x) ensures x == y {
      Antisymmetric(x, y);
    }
    forall x, y | l.good(x) && l.good(y)
      ensures l.good(l.join(x, y)) && l.leq(x, l.join(x, y)) && l.leq(y, l.join(x, y))
      ensures forall z :: l.good(z) && l.leq(x, z) && l.leq(y, z) ==> l.leq(l.join(x, y), z)
    {
      JoinIsLub(x, y);
      assert Join(x, y).status.Keys == x.status.Keys + y.status.Keys;
    }
    forall x | l.good(x) ensures l.atoms(x) <= l.all {
      AtomsBounded(x, u);
    }
    forall x, y | l.good(x) && l.good(y) && l.leq(x, y) && x != y ensures l.atoms(x) < l.atoms(y) {
      AtomsMono(x, y);
    }
  }

  // The right-hand side of the equation of block b, with the join of escape graphs.
  ghost function Out(c: MF.Cfg, tf: MF.Transfer<EscGraph>, init: EscGraph, ends: Ends, b: MF.Block): EscGraph
    requires b in c.preds && b in c.instrs
  {
    MF.BlockResult(c, JOIN, EMPTY, tf, init, ends, b)
  }

  // l is the lattice of escape graphs, or of some of them.
  ghost predicate Fits(l: MF.Lattice<EscGraph, Atom>) {
    MF.Laws(l) && l.join == JOIN && l.bottom == EMPTY && forall g :: l.good(g) ==> Good(g)
  }

  lemma EscLatticeFits(u: set<Node>)
    ensures Fits(EscLattice(u))
  {
    EscLaws(u);
  }

  ghost predicate GoodEnds(ends: Ends) {
    forall b :: b in ends ==> Good(ends[b])
  }

  // v is what holds at the start of b: the initial graph if b has no
  // predecessors, and else the least closed graph above the graphs of those
  // predecessors that have one.
  ghost predicate StartsWith(c: MF.Cfg, init: EscGraph, ends: Ends, b: MF.Block, v: EscGraph)
    requires b in c.preds
  {
    if c.preds[b] == [] then v == init
    else
      && Good(v)
      && (forall p :: p in c.preds[b] && p in ends ==> LessEq(ends[p], v))
      && (forall z :: Good(z) && (forall p :: p in c.preds[b] && p in ends ==> LessEq(ends[p], z)) ==> LessEq(v, z))
  }

  ghost function NodesOf(ends: Ends): set<Node> {
    set b, n | b in ends && n in ends[b].status :: n
  }

  lemma NodesOfEnds(ends: Ends, b: MF.Block)
    requires b in ends
    ensures ends[b].status.Keys <= NodesOf(ends)
  {
  }

  lemma AllInLattice(ends: Ends, u: set<Node>)
    requires GoodEnds(ends) && NodesOf(ends) <= u
    ensures MF.AllGood(EscLattice(u), ends)
  {
    forall b | b in ends ensures EscLattice(u).good(ends[b]) {
      NodesOfEnds(ends, b);
    }
  }

  lemma MergeBelow(ends: Ends, preds: seq<MF.Block>, z: EscGraph)
    requires GoodEnds(ends) && Good(z) && forall p :: p in preds && p in ends ==> LessEq(ends[p], z)
    ensures LessEq(MF.MergeOf(JOIN, EMPTY, ends, preds), z)
  {
    var l := EscLattice(NodesOf(ends) + z.status.Keys);
    EscLaws(NodesOf(ends) + z.status.Keys);
    AllInLattice(ends, NodesOf(ends) + z.status.Keys);
    MF.MergeOfBelow(l, ends, preds, z);
  }

  lemma MergeAbove(ends: Ends, preds: seq<MF.Block>)
    requires GoodEnds(ends)
    ensures Good(MF.MergeOf(JOIN, EMPTY, ends, preds))
    ensures forall p :: p in preds && p in ends ==> LessEq(ends[p], MF.MergeOf(JOIN, EMPTY, ends, preds))
  {
    var l := EscLattice(NodesOf(ends));
    EscLaws(NodesOf(ends));
    AllInLattice(ends, NodesOf(ends));
    MF.MergeOfGood(l, ends, preds);
    forall p | p in preds && p in ends ensures LessEq(ends[p], MF.MergeOf(JOIN, EMPTY, ends, preds)) {
      MF.MergeOfAbove(l, ends, preds, p);
    }
  }

  lemma BlockInStarts(c: MF.Cfg, init: EscGraph, ends: Ends, b: MF.Block)
    requires GoodEnds(ends) && Good(init) && b in c.preds
    ensures StartsWith(c, init, ends, b, MF.BlockIn(c, JOIN, EMPTY, init, ends, b))
  {
    if c.preds[b] == [] {
      JoinCommutes(EMPTY, init);
      JoinIdempotent(init);
    } else {
      MergeAbove(ends, c.preds[b]);
      forall z | Good(z) && (forall p :: p in c.preds[b] && p in ends ==> LessEq(ends[p], z))
        ensures LessEq(MF.MergeOf(JOIN, EMPTY, ends, c.preds[b]), z)
      {
        MergeBelow(ends, c.preds[b], z);
      }
    }
  }

  ghost function EdgeSet(g: EscGraph): set<Edge> {
    set a, b, k | a in g.edges && b in g.edges[a] && k in g.edges[a][b] :: Edge(a, b, k)
  }

  lemma EdgeSetMembers(g: EscGraph)
    ensures forall e :: e in EdgeSet(g) <==> HasEdge(g, e)
  {
    forall e | HasEdge(g, e) ensures e in EdgeSet(g) {
      assert e == Edge(e.src, e.dest, e.mask);
    }
  }

  // ------------------------------------------------------------ the code

  class FunctionState {
    const cfg: MF.Cfg
    const transfer: MF.Transfer<EscGraph>
    const initialGraph: EscapeGraph
    var blockEnd: map<MF.Block, EscapeGraph>
    var worklist: seq<MF.Block>
    ghost var ends: Ends  // the values of the graphs in blockEnd
    ghost var repr: set<object>  // the graphs and their rows

    ghost predicate Valid()
      reads this, repr
    {
      && MF.ValidCfg(cfg)
      && initialGraph in repr && initialGraph.rows <= repr && initialGraph.Valid() && Good(initialGraph.Value())
      && ends.Keys == blockEnd.Keys
      && forall b :: b in blockEnd ==> blockEnd[b] in repr && blockEnd[b].rows <= repr && EndsIn(blockEnd[b], ends[b])
    }

    // v is the value of g.
    static ghost predicate EndsIn(g: EscapeGraph, v: EscGraph)
      reads g, g.rows
    {
      g.Valid() && g.Value() == v && Good(v)
    }

    constructor (cfg: MF.Cfg, transfer: MF.Transfer<EscGraph>, initialGraph: EscapeGraph)
      requires MF.ValidCfg(cfg) && initialGraph.Valid() && Good(initialGraph.Value())
      ensures Valid() && ends == map[] && worklist == MF.StartWork(cfg)
      ensures this.cfg == cfg && this.transfer == transfer && this.initialGraph == initialGraph
    {
      this.cfg, this.transfer, this.initialGraph := cfg, transfer, initialGraph;
      blockEnd, worklist, ends := map[], MF.StartWork(cfg), map[];
      repr := {initialGraph} + initialGraph.rows;
    }

    // Merges the predecessors' graphs (the initial graph for a block without
    // predecessors) into a new graph.
    method MergePreds(bb: MF.Block) returns (g: EscapeGraph)
      requires Valid() && bb in cfg.blocks
      ensures fresh(g) && fresh(g.rows) && g.Valid()
      ensures Good(g.Value()) && g.Value() == MF.BlockIn(cfg, JOIN, EMPTY, initialGraph.Value(), ends, bb)
      ensures StartsWith(cfg, initialGraph.Value(), ends, bb, g.Value())
    {
      BlockInStarts(cfg, initialGraph.Value(), ends, bb);
      g := new EscapeGraph();
      var preds := cfg.preds[bb];
      if |preds| == 0 {
        g.Merge(initialGraph);
      } else {
        MergeAll(g, preds);
      }
    }

    method MergeAll(g: EscapeGraph, preds: seq<MF.Block>)
      requires Valid() && g.Valid() && g.Value() == EMPTY && g !in repr && g.rows !! repr
      modifies g, g.rows
      ensures g.Valid() && (forall r :: r in g.rows ==> r in old(g.rows) || fresh(r)) && Good(g.Value())
      ensures g.Value() == MF.MergeOf(JOIN, EMPTY, ends, preds)
    {
      for i := 0 to |preds|
        invariant g.Valid() && (forall r :: r in g.rows ==> r in old(g.rows) || fresh(r)) && Good(g.Value())
        invariant g.Value() == MF.MergeOf(JOIN, EMPTY, ends, preds[..i])
      {
        MergePred(g, preds[i]);
        assert preds[..i + 1][..i] == preds[..i];
      }
      assert preds[..|preds|] == preds;
    }

    // A predecessor without a graph yet changes nothing.
    method MergePred(g: EscapeGraph, pred: MF.Block)
      requires Valid() && g.Valid() && Good(g.Value())
      modifies g, g.rows
      ensures g.Valid() && (forall r :: r in g.rows ==> r in old(g.rows) || fresh(r)) && Good(g.Value())
      ensures g.Value() == if pred in old(ends) then Join(old(g.Value()), old(ends)[pred]) else old(g.Value())
    {
      if pred in blockEnd {
        g.Merge(blockEnd[pred]);
      }
    }

    // The new end graph of a block, in a graph of its own.
    method Recompute(bb: MF.Block) returns (g: EscapeGraph)
      requires Valid() && bb in cfg.blocks
      ensures fresh(g) && fresh(g.rows) && g.Valid()
      ensures g.Value() == Out(cfg, transfer, initialGraph.Value(), ends, bb)
    {
      g := MergePreds(bb);
      RunBlock(g, cfg.instrs[bb]);
    }

    // Recomputes the end graph of a block and says whether it is new.
    method ProcessBlock(bb: MF.Block) returns (changed: bool)
      requires Valid() && bb in cfg.blocks
      requires Good(Out(cfg, transfer, initialGraph.Value(), ends, bb))
      modifies this`blockEnd, this`ends, this`repr
      ensures Valid()
      ensures ends == old(ends)[bb := Out(cfg, transfer, initialGraph.Value(), old(ends), bb)]
      ensures changed <==> ends != old(ends)
      ensures if changed then bb in blockEnd && fresh(blockEnd[bb]) && fresh(blockEnd[bb].rows) && blockEnd == old(blockEnd)[bb := blockEnd[bb]]
              else blockEnd == old(blockEnd)
    {
      var g := Recompute(bb);
      if bb in blockEnd {
        var same := blockEnd[bb].Matches(g);
        if same {
          return false;
        }
      }
      Store(bb, g);
      return true;
    }

    method Store(bb: MF.Block, g: EscapeGraph)
      requires Valid() && g.Valid() && Good(g.Value())
      modifies this`blockEnd, this`ends, this`repr
      ensures Valid() && ends == old(ends)[bb := g.Value()] && blockEnd == old(blockEnd)[bb := g]
    {
      blockEnd, ends := blockEnd[bb := g], ends[bb := g.Value()];
      repr := repr + {g} + g.rows;
    }

    // Applies the instructions of a block to a graph, in place and in order.
    method RunBlock(g: EscapeGraph, instrs: seq<MF.Instr>)
      requires g.Valid()
      modifies g, g.rows
      ensures g.Valid() && (forall r :: r in g.rows ==> r in old(g.rows) || fresh(r))
      ensures g.Value() == MF.RunInstrs(transfer, instrs, old(g.Value()))
    {
      for i := 0 to |instrs|
        invariant g.Valid() && (forall r :: r in g.rows ==> r in old(g.rows) || fresh(r))
        invariant g.Value() == MF.RunInstrs(transfer, instrs[..i], old(g.Value()))
      {
        assert instrs[..i + 1][..i] == instrs[..i];
        Transform(g, instrs[i]);
      }
      assert instrs[..|instrs|] == instrs;
    }

    // Applies the transfer of one instruction to a graph in place.
    method Transform(g: EscapeGraph, i: MF.Instr)
      requires g.Valid()
      modifies g, g.rows
      ensures g.Valid() && (forall r :: r in g.rows ==> r in old(g.rows) || fresh(r))
      ensures g.Value() == transfer(i, old(g.Value()))
    {
      g.Become(transfer(i, g.Read()));
    }

    method AddToBlockWorklist(block: MF.Block)
      modifies this`worklist
      ensures worklist == if block in old(worklist) then old(worklist) else old(worklist) + [block]
      ensures forall b :: b in worklist <==> b in old(worklist) || b == block
    {
      var found := false;
      for i := 0 to |worklist|
        invariant found <==> block in worklist[..i]
      {
        if worklist[i] == block {
          found := true;
        }
      }
      if !found {
        worklist := worklist + [block];
      }
    }

    // Schedules all successors of a block.
    method AddSuccessors(block: MF.Block)
      requires MF.ValidCfg(cfg) && block in cfg.blocks
      modifies this`worklist
      ensures forall b :: b in worklist <==> b in old(worklist) || b in cfg.succs[block]
    {
      var succs := cfg.succs[block];
      for i := 0 to |succs|
        invariant forall b :: b in worklist <==> b in old(worklist) || b in succs[..i]
      {
        AddToBlockWorklist(succs[i]);
      }
    }

    // The graph of a block has more than maxSize edges (None: no limit).
    method GraphTooLarge(maxSize: Option<nat>, block: MF.Block) returns (large: bool)
      requires Valid()
      ensures large <==> maxSize.Some? && block in blockEnd && |EdgeSet(blockEnd[block].Value())| > maxSize.value
    {
      if maxSize.None? || block !in blockEnd {
        return false;
      }
      var es := blockEnd[block].EdgeList();
      EdgeSetMembers(blockEnd[block].Value());
      assert es == EdgeSet(blockEnd[block].Value());
      return |es| > maxSize.value;
    }

    // The worklist algorithm is under way, with any transfer.
    ghost predicate Consistent()
      reads this, repr
    {
      Valid() && MF.Consistent(cfg, JOIN, EMPTY, transfer, initialGraph.Value(), ends, worklist)
    }

    // The same in a lattice that the transfer is monotone on.
    ghost predicate Running(l: MF.Lattice<EscGraph, Atom>)
      reads this, repr
    {
      && Valid() && Fits(l) && MF.Monotone(l, transfer) && l.good(initialGraph.Value())
      && MF.Converging(cfg, l, transfer, initialGraph.Value(), ends, worklist)
    }

    // Both hold of a new state.
    lemma StartsConsistent()
      requires Valid() && ends == map[] && worklist == MF.StartWork(cfg)
      ensures Consistent()
      ensures forall l :: Fits(l) && MF.Monotone(l, transfer) && l.good(initialGraph.Value()) ==> Running(l)
    {
      MF.ConsistentStarts(cfg, JOIN, EMPTY, transfer, initialGraph.Value());
      forall l | Fits(l) && MF.Monotone(l, transfer) && l.good(initialGraph.Value()) ensures Running(l) {
        MF.ConvergingStarts(cfg, l, transfer, initialGraph.Value());
      }
    }

    // However the transfer behaves: once the worklist is empty the graphs solve
    // the equations of exactly the reachable blocks.
    lemma ConsistentDone()
      requires Consistent() && worklist == []
      ensures MF.Solution(cfg, JOIN, EMPTY, transfer, initialGraph.Value(), ends)
    {
      MF.ConsistentIsSolved(cfg, JOIN, EMPTY, transfer, initialGraph.Value(), ends);
    }

    // Takes the first block off the worklist, recomputes it and schedules its
    // successors if its graph is new.
    method ProcessFirst()
      requires Valid() && |worklist| > 0 && worklist[0] in cfg.blocks
      requires Good(Out(cfg, transfer, initialGraph.Value(), ends, worklist[0]))
      modifies this`blockEnd, this`worklist, this`ends, this`repr
      ensures Valid() && ends == old(ends)[old(worklist[0]) := Out(cfg, transfer, initialGraph.Value(), old(ends), old(worklist[0]))]
      ensures forall x :: x in worklist <==> x in old(worklist[1..]) || (ends != old(ends) && MF.HasSucc(cfg, old(worklist[0]), x))
      ensures ends == old(ends) ==> worklist == old(worklist[1..])
      ensures old(Consistent()) ==> Consistent()
    {
      ghost var before, block, work := ends, worklist[0], worklist[1..];
      assert worklist == [block] + work;
      TakeFirst();
      if old(Consistent()) {
        MF.ConsistentSteps(cfg, JOIN, EMPTY, transfer, initialGraph.Value(), before, ends, block, work, worklist);
      }
    }

    method TakeFirst()
      requires Valid() && |worklist| > 0 && worklist[0] in cfg.blocks
      requires Good(Out(cfg, transfer, initialGraph.Value(), ends, worklist[0]))
      modifies this`blockEnd, this`worklist, this`ends, this`repr
      ensures Valid() && ends == old(ends)[old(worklist[0]) := Out(cfg, transfer, initialGraph.Value(), old(ends), old(worklist[0]))]
      ensures forall x :: x in worklist <==> x in old(worklist[1..]) || (ends != old(ends) && MF.HasSucc(cfg, old(worklist[0]), x))
      ensures ends == old(ends) ==> worklist == old(worklist[1..])
    {
      var block := worklist[0];
      worklist := worklist[1..];
      var changed := ProcessBlock(block);
      if changed {
        AddSuccessors(block);
      }
    }

    // One round of the loop below.
    method Round(ghost l: MF.Lattice<EscGraph, Atom>)
      requires Running(l) && |worklist| > 0
      modifies this`blockEnd, this`worklist, this`ends, this`repr
      ensures Running(l)
      ensures MF.Missing(cfg, l, ends) < MF.Missing(cfg, l, old(ends)) || (ends == old(ends) && |worklist| < |old(worklist)|)
    {
      ghost var init, before, block, work := initialGraph.Value(), ends, worklist[0], worklist[1..];
      assert worklist == [block] + work && block in worklist;
      MF.BlockOutGood(cfg, l, transfer, init, before, block);
      ProcessFirst();
      MF.ConvergingSteps(cfg, l, transfer, init, before, ends, block, work, worklist);
    }

    lemma RunningDone(l: MF.Lattice<EscGraph, Atom>)
      requires Running(l) && worklist == []
      ensures MF.LeastSolution(cfg, l, transfer, initialGraph.Value(), ends)
      ensures MF.Dataflow(cfg, l, transfer, initialGraph.Value(), ends)
    {
      MF.SolutionIsDataflow(cfg, l, transfer, initialGraph.Value(), ends);
      MF.ConvergedIsLeast(cfg, l, transfer, initialGraph.Value(), ends);
    }

    // The first block is dropped because its graph is too large.
    method StopIfTooLarge(maxSize: Option<nat>) returns (large: bool)
      requires Valid() && |worklist| > 0
      modifies this`worklist
      ensures large ==> Valid() && maxSize.Some? && exists b :: b in ends && |EdgeSet(ends[b])| > maxSize.value
      ensures !large ==> worklist == old(worklist)
    {
      large := GraphTooLarge(maxSize, worklist[0]);
      if large {
        assert worklist[0] in ends;
        worklist := worklist[1..];
      }
    }

    // Runs the worklist dry, or stops with an error when the graph of the next
    // block is too large.  A function without blocks has nothing to do.
    method RunForwardIterative(maxSize: Option<nat>, ghost l: MF.Lattice<EscGraph, Atom>) returns (ok: bool)
      requires Running(l)
      modifies this`blockEnd, this`worklist, this`ends, this`repr
      ensures Valid()
      ensures ok ==> worklist == [] && MF.LeastSolution(cfg, l, transfer, initialGraph.Value(), ends)
      ensures ok ==> MF.Dataflow(cfg, l, transfer, initialGraph.Value(), ends)
      ensures !ok ==> maxSize.Some? && exists b :: b in ends && |EdgeSet(ends[b])| > maxSize.value
    {
      if cfg.blocks == {} {
        MF.NothingTracked(cfg, ends, worklist);
        RunningDone(l);
        return true;
      }
      while |worklist| > 0
        invariant Running(l)
        decreases MF.Missing(cfg, l, ends), |worklist|
      {
        var large := StopIfTooLarge(maxSize);
        if large {
          return false;
        }
        Round(l);
      }
      RunningDone(l);
      return true;
    }
  }
}
