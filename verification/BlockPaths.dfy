// Finding one path between two blocks, and the conditions met along a path.
module BlockPaths {
  import opened Options
  import opened DistinctSeqs
  import opened Paths
  import opened Blocks

  // ------------------------------------------------------------ trees and lists of blocks

  class BlockTree {
    const block: Block
    const parent: BlockTree?
    ghost const path: seq<Block>  // from the root down to this block
    var children: seq<BlockTree>

    // Nothing here depends on the heap: only the list of children ever changes.
    ghost predicate Valid()
      decreases |path|
    {
      && path != []
      && (parent == null ==> path == [block])
      && (parent != null ==> path == parent.path + [block] && parent.Valid())
    }

    constructor (block: Block)
      ensures Valid() && path == [block] && this.block == block && children == []
    {
      this.block, parent, path, children := block, null, [block], [];
    }

    constructor Below(parent: BlockTree, block: Block)
      requires parent.Valid()
      ensures Valid() && path == parent.path + [block] && this.block == block && children == []
    {
      this.block, this.parent, path, children := block, parent, parent.path + [block], [];
    }

    method AddChild(block: Block) returns (child: BlockTree)
      requires Valid()
      modifies this`children
      ensures fresh(child) && child.Valid() && child.block == block && child.path == path + [block]
      ensures children == old(children) + [child]
    {
      child := new BlockTree.Below(this, block);
      children := children + [child];
    }

    // The path from the root to this block, with this block once more at the end.
    method PathToLeaf() returns (p: BlockPath)
      requires Valid()
      ensures p.Valid() && p.blocks == path + [block]
    {
      p := new BlockPath(block, null);
      var leaf: BlockTree? := this;
      while leaf != null
        invariant p.Valid() && path + [block] == PathTo(leaf) + p.blocks
        invariant leaf != null ==> leaf.Valid()
        decreases |PathTo(leaf)|
      {
        PathToEnd(leaf);
        Regroup(PathTo(leaf.parent), leaf.block, p.blocks);
        p := new BlockPath(leaf.block, p);
        leaf := leaf.parent;
      }
    }
  }

  class BlockPath {
    const block: Block
    const next: BlockPath?
    ghost const blocks: seq<Block>

    ghost predicate Valid()
      decreases |blocks|
    {
      && blocks != []
      && (next == null ==> blocks == [block])
      && (next != null ==> blocks == [block] + next.blocks && next.Valid())
    }

    constructor (block: Block, next: BlockPath?)
      requires next != null ==> next.Valid()
      ensures Valid() && blocks == [block] + (if next == null then [] else next.blocks)
    {
      this.block, this.next := block, next;
      blocks := [block] + (if next == null then [] else next.blocks);
    }

    method ToBlocks() returns (r: seq<Block>)
      requires Valid()
      ensures r == blocks
    {
      r := [];
      var cur: BlockPath? := this;
      while cur != null
        invariant cur != null ==> cur.Valid()
        invariant blocks == r + BlocksFrom(cur)
        decreases |BlocksFrom(cur)|
      {
        assert BlocksFrom(cur) == [cur.block] + BlocksFrom(cur.next);
        Regroup(r, cur.block, BlocksFrom(cur.next));
        r := r + [cur.block];
        cur := cur.next;
      }
    }
  }

  ghost function PathTo(t: BlockTree?): seq<Block> {
    if t == null then [] else t.path
  }

  lemma PathToEnd(t: BlockTree)
    requires t.Valid()
    ensures PathTo(t) == PathTo(t.parent) + [t.block] && |PathTo(t.parent)| < |PathTo(t)|
  {
  }

  ghost function BlocksFrom(p: BlockPath?): seq<Block> {
    if p == null then [] else p.blocks
  }

  lemma Regroup(a: seq<Block>, b: Block, s: seq<Block>)
    ensures a + ([b] + s) == a + [b] + s
  {
  }

  // ------------------------------------------------------------ the state of the search

  // b lies above every copy of a.
  ghost predicate Above(stack: seq<Block>, a: Block, b: Block) {
    forall i :: 0 <= i < |stack| && stack[i] == a ==> b in stack[i + 1..]
  }

  lemma AboveKept(rest: seq<Block>, top: Block, added: seq<Block>, a: Block, b: Block)
    requires Above(rest + [top], a, b) && b != top && a !in added
    ensures Above(rest + added, a, b)
  {
    assert forall k :: 0 <= k < |added| ==> added[k] != a;
    forall i | 0 <= i < |rest + added| && (rest + added)[i] == a ensures b in (rest + added)[i + 1..] {
      assert (rest + [top])[i] == a && (rest + [top])[i + 1..] == rest[i + 1..] + [top];
      assert (rest + added)[i + 1..] == rest[i + 1..] + added;
    }
  }

  lemma AboveAdded(rest: seq<Block>, added: seq<Block>, a: Block, b: Block)
    requires b in added && a !in added
    ensures Above(rest + added, a, b)
  {
    assert forall k :: 0 <= k < |added| ==> added[k] != a;
    forall i | 0 <= i < |rest + added| && (rest + added)[i] == a ensures b in (rest + added)[i + 1..] {
      assert (rest + added)[i + 1..] == rest[i + 1..] + added;
    }
  }

  lemma NothingAboveTop(rest: seq<Block>, top: Block, b: Block)
    ensures !Above(rest + [top], top, b)
  {
    assert (rest + [top])[|rest|] == top && (rest + [top])[|rest| + 1..] == [];
  }

  // b is an unvisited successor of a visited block a.
  predicate Pending(c: SuccLists, vis: set<Block>, a: Block, b: Block) {
    a in vis && b in Succs(c, a) && b !in vis
  }

  // Every successor of begin and of a visited block is visited or on the stack,
  // and an unvisited successor of a visited block lies above every copy of that
  // block on the stack.
  ghost predicate Stacked(c: SuccLists, begin: Block, end: Block, stack: seq<Block>, vis: set<Block>) {
    && end !in vis
    && (forall b :: b in Succs(c, begin) ==> b in vis + Items(stack))
    && (forall a, b :: Pending(c, vis, a, b) ==> b in Items(stack) && Above(stack, a, b))
    && Items(stack) <= BlocksOf(c)
  }

  lemma StackedStarts(c: SuccLists, begin: Block, end: Block)
    ensures Stacked(c, begin, end, Succs(c, begin), {})
  {
    forall b | b in Items(Succs(c, begin)) ensures b in BlocksOf(c) {
    }
  }

  lemma {:induction false} UnvisitedNone(s: seq<Block>, vis: set<Block>)
    requires forall b :: b in s ==> b in vis
    ensures Unvisited(s, vis) == []
  {
    if s != [] {
      var b := s[|s| - 1];
      assert b in s;
      UnvisitedNone(s[..|s| - 1], vis);
    }
  }

  // A block met again adds nothing: what it could add has been dealt with.
  lemma NothingPending(c: SuccLists, begin: Block, end: Block, rest: seq<Block>, top: Block, vis: set<Block>)
    requires Stacked(c, begin, end, rest + [top], vis) && top in vis
    ensures Unvisited(Succs(c, top), vis) == []
  {
    forall b | b in Succs(c, top) ensures b in vis {
      NothingAboveTop(rest, top, b);
      assert !Pending(c, vis, top, b);
    }
    UnvisitedNone(Succs(c, top), vis);
  }

  lemma StackedStep(c: SuccLists, begin: Block, end: Block, rest: seq<Block>, top: Block, vis: set<Block>)
    requires top != end && Stacked(c, begin, end, rest + [top], vis)
    ensures Stacked(c, begin, end, rest + Unvisited(Succs(c, top), vis + {top}), vis + {top})
    ensures if top in vis then Unvisited(Succs(c, top), vis + {top}) == []
            else BlocksOf(c) - (vis + {top}) < BlocksOf(c) - vis
  {
    var vis' := vis + {top};
    var added := Unvisited(Succs(c, top), vis');
    ItemsAppend(rest, [top]);
    ItemsAppend(rest, added);
    assert top in Items([top]);
    if top in vis {
      assert vis' == vis;
      NothingPending(c, begin, end, rest, top, vis);
    }
    forall b | b in Items(added) ensures b in BlocksOf(c) {
    }
    forall a, b | Pending(c, vis', a, b) ensures b in Items(rest + added) && Above(rest + added, a, b) {
      if a in vis {
        AboveKept(rest, top, added, a, b);
      } else {
        AboveAdded(rest, added, a, b);
      }
    }
  }

  lemma StackedDone(c: SuccLists, begin: Block, end: Block, vis: set<Block>)
    requires Stacked(c, begin, end, [], vis)
    ensures !ReachPlus(GraphOf(c), begin, end)
  {
    forall a, b | a in vis && b in Succ(GraphOf(c), a) ensures b in vis {
      SuccIsSuccs(c, a);
      assert !Pending(c, vis, a, b);
    }
    if ReachPlus(GraphOf(c), begin, end) {
      SuccIsSuccs(c, begin);
      var b := FirstStep(GraphOf(c), begin, end);
      assert b in Succs(c, begin);
      ReachStays(GraphOf(c), vis, b, end);
    }
  }

  // ------------------------------------------------------------ the search

  ghost predicate GoodNode(c: SuccLists, begin: Block, t: BlockTree) {
    t.Valid() && |t.path| > 1 && Joins(GraphOf(c), t.path, begin, t.block)
  }

  ghost function BlocksIn(queue: seq<BlockTree>): seq<Block> {
    seq(|queue|, i requires 0 <= i < |queue| => queue[i].block)
  }

  ghost predicate Good(c: SuccLists, begin: Block, queue: seq<BlockTree>) {
    forall i :: 0 <= i < |queue| ==> GoodNode(c, begin, queue[i])
  }

  lemma PathSnoc(c: SuccLists, p: seq<Block>, a: Block, b: Block, d: Block)
    requires Joins(GraphOf(c), p, a, b) && d in Succs(c, b)
    ensures Joins(GraphOf(c), p + [d], a, d)
  {
    SuccIsSuccs(c, b);
  }

  // Adds a child of cur for each successor that is not visited.
  method PushChildren(c: SuccLists, ghost begin: Block, cur: BlockTree, vis: set<Block>) returns (added: seq<BlockTree>)
    requires cur.Valid() && Joins(GraphOf(c), cur.path, begin, cur.block)
    modifies cur`children
    ensures BlocksIn(added) == Unvisited(Succs(c, cur.block), vis)
    ensures forall i :: 0 <= i < |added| ==> fresh(added[i])
    ensures Good(c, begin, added)
  {
    added := [];
    var succs := Succs(c, cur.block);
    for i := 0 to |succs|
      invariant BlocksIn(added) == Unvisited(succs[..i], vis)
      invariant Good(c, begin, added) && forall j :: 0 <= j < |added| ==> fresh(added[j])
    {
      assert succs[..i + 1][..i] == succs[..i];
      if succs[i] !in vis {
        PathSnoc(c, cur.path, begin, cur.block, succs[i]);
        var child := cur.AddChild(succs[i]);
        assert BlocksIn(added + [child]) == BlocksIn(added) + [succs[i]];
        added := added + [child];
      }
    }
    assert succs[..|succs|] == succs;
  }

  lemma BlocksInAppend(a: seq<BlockTree>, b: seq<BlockTree>)
    ensures BlocksIn(a + b) == BlocksIn(a) + BlocksIn(b)
  {
  }

  lemma BlocksInLast(a: seq<BlockTree>)
    requires a != []
    ensures BlocksIn(a) == BlocksIn(a[..|a| - 1]) + [a[|a| - 1].block]
  {
  }

  // A path of at least one edge from begin to end, with end written twice.
  ghost predicate Result(c: SuccLists, begin: Block, end: Block, r: seq<Block>) {
    |r| > 2 && r[|r| - 1] == end && Joins(GraphOf(c), r[..|r| - 1], begin, end)
  }

  method PathOf(c: SuccLists, ghost begin: Block, t: BlockTree) returns (r: seq<Block>)
    requires GoodNode(c, begin, t)
    ensures Result(c, begin, t.block, r) && ReachPlus(GraphOf(c), begin, t.block)
  {
    var p := t.PathToLeaf();
    r := p.ToBlocks();
    assert r[..|r| - 1] == t.path;
    assert Joins(GraphOf(c), t.path[1..], t.path[1], t.block);
  }

  // Takes the top of the stack, which is not the end, and stacks its successors
  // that are not visited.
  method VisitTop(c: SuccLists, ghost begin: Block, ghost end: Block, queue: seq<BlockTree>, vis: set<Block>)
    returns (queue': seq<BlockTree>, vis': set<Block>)
    requires queue != [] && queue[|queue| - 1].block != end && Good(c, begin, queue) && Stacked(c, begin, end, BlocksIn(queue), vis)
    modifies {queue[|queue| - 1]}
    ensures Good(c, begin, queue') && Stacked(c, begin, end, BlocksIn(queue'), vis')
    ensures forall t :: t in queue' ==> t in queue || fresh(t)
    ensures if vis' == vis then |queue'| < |queue| else BlocksOf(c) - vis' < BlocksOf(c) - vis
  {
    var cur := queue[|queue| - 1];
    BlocksInLast(queue);
    queue' := queue[..|queue| - 1];
    StackedStep(c, begin, end, BlocksIn(queue'), cur.block, vis);
    vis' := vis + {cur.block};
    var added := PushChildren(c, begin, cur, vis');
    BlocksInAppend(queue', added);
    queue' := queue' + added;
  }

  // Nothing exactly when there is no such path.
  method FindPathBetweenBlocks(c: SuccLists, begin: Block, end: Block) returns (r: Option<seq<Block>>)
    ensures r.None? <==> !ReachPlus(GraphOf(c), begin, end)
    ensures r.Some? ==> Result(c, begin, end, r.value)
  {
    var vis: set<Block> := {};
    var t := new BlockTree(begin);
    var queue := PushChildren(c, begin, t, {});
    UnvisitedAll(Succs(c, begin));
    StackedStarts(c, begin, end);
    while true
      invariant Good(c, begin, queue) && forall x :: x in queue ==> fresh(x)
      invariant Stacked(c, begin, end, BlocksIn(queue), vis)
      decreases BlocksOf(c) - vis, |queue|
    {
      if |queue| == 0 {
        StackedDone(c, begin, end, vis);
        return None;
      }
      var cur := queue[|queue| - 1];
      assert cur in queue;
      if cur.block == end {
        var blocks := PathOf(c, begin, cur);
        return Some(blocks);
      }
      queue, vis := VisitTop(c, begin, end, queue, vis);
    }
  }

  lemma {:induction false} UnvisitedAll(s: seq<Block>)
    ensures Unvisited(s, {}) == s
  {
    if s != [] {
      UnvisitedAll(s[..|s| - 1]);
    }
  }

  // ------------------------------------------------------------ conditions along a path

  // A branch goes to the first successor when value holds, to the second when not.
  datatype Condition = Condition(isPositive: bool, value: string)
  datatype ConditionInfo = ConditionInfo(satisfiable: bool, conditions: seq<Condition>)
  datatype PathInformation = PathInformation(blocks: seq<Block>, cond: ConditionInfo)

  // The condition values of the blocks that end in a branch; those have two successors.
  type Branches = map<Block, string>

  predicate TwoWay(c: SuccLists, br: Branches) {
    forall b :: b in br ==> |Succs(c, b)| == 2
  }

  // What is recorded for a step from a to b.
  function EdgeCondition(c: SuccLists, br: Branches, a: Block, b: Block): seq<Condition>
    requires a in br ==> |Succs(c, a)| == 2
  {
    if a !in br then []
    else if b == Succs(c, a)[0] then [Condition(true, br[a])]
    else if b == Succs(c, a)[1] then [Condition(false, br[a])]
    else []
  }

  function Conditions(c: SuccLists, br: Branches, p: seq<Block>): seq<Condition>
    requires TwoWay(c, br)
  {
    if |p| < 2 then [] else EdgeCondition(c, br, p[0], p[1]) + Conditions(c, br, p[1..])
  }

  lemma ConditionsStep(c: SuccLists, br: Branches, p: seq<Block>, i: nat)
    requires TwoWay(c, br) && i < |p|
    ensures Conditions(c, br, p[i..]) ==
      (if i + 1 < |p| then EdgeCondition(c, br, p[i], p[i + 1]) else []) + Conditions(c, br, p[i + 1..])
  {
    assert p[i..][1..] == p[i + 1..];
    if i + 1 < |p| {
      assert p[i..][0] == p[i] && p[i..][1] == p[i + 1];
    }
  }

  // The condition of going from one block of the path to the next.
  method StepCondition(c: SuccLists, br: Branches, block: Block, next: Block) returns (conditions: seq<Condition>)
    requires TwoWay(c, br)
    ensures conditions == EdgeCondition(c, br, block, next)
  {
    conditions := [];
    if block in br {
      if next == Succs(c, block)[0] {
        conditions := [Condition(true, br[block])];
      } else if next == Succs(c, block)[1] {
        conditions := [Condition(false, br[block])];
      }
    }
  }

  // The conditions of the first i steps have been collected.
  // Going from a branch to its first successor needs the condition to hold, to
  // its second one that it does not hold; other blocks need nothing.
  lemma BranchConditions(c: SuccLists, br: Branches, a: Block, yes: Block, no: Block)
    requires TwoWay(c, br) && a in c && c[a] == [yes, no] && yes != no
    ensures a in br ==> Conditions(c, br, [a, yes]) == [Condition(true, br[a])]
    ensures a in br ==> Conditions(c, br, [a, no]) == [Condition(false, br[a])]
    ensures a !in br ==> Conditions(c, br, [a, yes]) == [] && Conditions(c, br, [a, no]) == []
  {
    assert Conditions(c, br, [yes]) == [] && Conditions(c, br, [no]) == [];
    assert [a, yes][1..] == [yes] && [a, no][1..] == [no];
  }

  ghost predicate Collected(c: SuccLists, br: Branches, p: seq<Block>, i: nat, conditions: seq<Condition>)
    requires TwoWay(c, br) && i <= |p|
  {
    Conditions(c, br, p) == conditions + Conditions(c, br, p[i..])
  }

  lemma CollectedStep(c: SuccLists, br: Branches, p: seq<Block>, i: nat, conditions: seq<Condition>, more: seq<Condition>)
    requires TwoWay(c, br) && i < |p| && Collected(c, br, p, i, conditions)
    requires more == if i + 1 < |p| then EdgeCondition(c, br, p[i], p[i + 1]) else []
    ensures Collected(c, br, p, i + 1, conditions + more)
  {
    ConditionsStep(c, br, p, i);
    assert conditions + (more + Conditions(c, br, p[i + 1..])) == conditions + more + Conditions(c, br, p[i + 1..]);
  }

  method SimplePathCondition(c: SuccLists, br: Branches, path: seq<Block>) returns (r: ConditionInfo)
    requires TwoWay(c, br)
    ensures r == ConditionInfo(true, Conditions(c, br, path))
  {
    var conditions := [];
    assert path[0..] == path;
    for i := 0 to |path|
      invariant Collected(c, br, path, i, conditions)
    {
      var more := [];
      if i < |path| - 1 {
        more := StepCondition(c, br, path[i], path[i + 1]);
      }
      CollectedStep(c, br, path, i, conditions, more);
      conditions := conditions + more;
    }
    return ConditionInfo(true, conditions);
  }

  // The program runs along p when its branches, in order, go as t says.
  predicate Runs(c: SuccLists, br: Branches, p: seq<Block>, t: seq<Condition>)
    requires TwoWay(c, br)
  {
    if |p| < 2 then t == []
    else if p[0] !in br then p[1] in Succs(c, p[0]) && Runs(c, br, p[1..], t)
    else
      && t != [] && t[0].value == br[p[0]]
      && p[1] == Succs(c, p[0])[if t[0].isPositive then 0 else 1]
      && Runs(c, br, p[1..], t[1..])
  }

  // Some branch of p goes to the same block either way.
  ghost predicate Degenerate(c: SuccLists, br: Branches, p: seq<Block>)
    requires TwoWay(c, br)
  {
    exists i :: 0 <= i < |p| - 1 && p[i] in br && Succs(c, p[i])[0] == Succs(c, p[i])[1]
  }

  // The recorded conditions are one way of running along the path,
  lemma {:induction false} ConditionsRun(c: SuccLists, br: Branches, p: seq<Block>)
    requires TwoWay(c, br) && IsPath(GraphOf(c), p)
    ensures Runs(c, br, p, Conditions(c, br, p))
  {
    if |p| >= 2 {
      ConditionsRun(c, br, p[1..]);
      RunsCons(c, br, p, Conditions(c, br, p[1..]));
    }
  }

  // and the only one, unless a branch goes to the same block either way.
  lemma {:induction false} ConditionsOnly(c: SuccLists, br: Branches, p: seq<Block>, t: seq<Condition>)
    requires TwoWay(c, br) && Runs(c, br, p, t) && !Degenerate(c, br, p)
    ensures t == Conditions(c, br, p)
  {
    if |p| >= 2 {
      forall i | 0 <= i < |p[1..]| - 1 && p[1..][i] in br ensures Succs(c, p[1..][i])[0] != Succs(c, p[1..][i])[1] {
        assert p[1..][i] == p[i + 1];
      }
      if p[0] in br {
        assert p[0] == p[0 + 0];
        ConditionsOnly(c, br, p[1..], t[1..]);
        assert t == [t[0]] + t[1..];
      } else {
        ConditionsOnly(c, br, p[1..], t);
      }
    }
  }

  // Running along the rest of the path, after its first step.
  lemma RunsCons(c: SuccLists, br: Branches, p: seq<Block>, t: seq<Condition>)
    requires TwoWay(c, br) && IsPath(GraphOf(c), p) && |p| > 1 && Runs(c, br, p[1..], t)
    ensures Runs(c, br, p, EdgeCondition(c, br, p[0], p[1]) + t)
  {
    SuccIsSuccs(c, p[0]);
    var b := p[1];
    assert b in Succ(GraphOf(c), p[0]) && b in Items(Succs(c, p[0]));
    var e := EdgeCondition(c, br, p[0], p[1]);
    assert (e + t)[|e|..] == t;
  }

  lemma DegenerateStart(c: SuccLists, br: Branches, p: seq<Block>) returns (t: seq<Condition>)
    requires TwoWay(c, br) && IsPath(GraphOf(c), p)
    requires |p| > 1 && p[0] in br && Succs(c, p[0])[0] == Succs(c, p[0])[1]
    ensures Runs(c, br, p, t) && t != Conditions(c, br, p)
  {
    var rest := Conditions(c, br, p[1..]);
    ConditionsRun(c, br, p[1..]);
    RunsCons(c, br, p, rest);
    t := [Condition(false, br[p[0]])] + rest;
    assert t[1..] == rest;
    assert Conditions(c, br, p)[0].isPositive && !t[0].isPositive;
  }

  lemma AppendDiffers(e: seq<Condition>, s: seq<Condition>, t: seq<Condition>)
    requires s != t
    ensures e + s != e + t
  {
    assert (e + s)[|e|..] == s && (e + t)[|e|..] == t;
  }

  lemma {:induction false} DegenerateRuns(c: SuccLists, br: Branches, p: seq<Block>, i: nat) returns (t: seq<Condition>)
    requires TwoWay(c, br) && IsPath(GraphOf(c), p)
    requires i < |p| - 1 && p[i] in br && Succs(c, p[i])[0] == Succs(c, p[i])[1]
    ensures Runs(c, br, p, t) && t != Conditions(c, br, p)
    decreases i
  {
    if i == 0 {
      t := DegenerateStart(c, br, p);
    } else {
      var t' := DegenerateRuns(c, br, p[1..], i - 1);
      RunsCons(c, br, p, t');
      AppendDiffers(EdgeCondition(c, br, p[0], p[1]), t', Conditions(c, br, p[1..]));
      t := EdgeCondition(c, br, p[0], p[1]) + t';
    }
  }

  // The recorded conditions are the one way of running along the path.
  ghost predicate Exact(c: SuccLists, br: Branches, p: seq<Block>)
    requires TwoWay(c, br)
  {
    forall t :: Runs(c, br, p, t) <==> t == Conditions(c, br, p)
  }

  // The conditions say exactly how control went along a path if and only if no
  // branch on it goes to the same block either way.
  lemma ConditionsExact(c: SuccLists, br: Branches, p: seq<Block>)
    requires TwoWay(c, br) && IsPath(GraphOf(c), p)
    ensures Exact(c, br, p) <==> !Degenerate(c, br, p)
  {
    if Degenerate(c, br, p) {
      var i :| 0 <= i < |p| - 1 && p[i] in br && Succs(c, p[i])[0] == Succs(c, p[i])[1];
      var t := DegenerateRuns(c, br, p, i);
    } else {
      forall t ensures Runs(c, br, p, t) <==> t == Conditions(c, br, p) {
        ConditionsRun(c, br, p);
        if Runs(c, br, p, t) {
          ConditionsOnly(c, br, p, t);
        }
      }
    }
  }

  lemma {:induction false} ConditionsSnoc(c: SuccLists, br: Branches, p: seq<Block>, b: Block)
    requires TwoWay(c, br) && p != []
    ensures Conditions(c, br, p + [b]) == Conditions(c, br, p) + EdgeCondition(c, br, p[|p| - 1], b)
  {
    if |p| > 1 {
      assert (p + [b])[1..] == p[1..] + [b];
      ConditionsSnoc(c, br, p[1..], b);
    }
  }

  // A block list between two instructions, with the conditions on it.  The last
  // block is listed twice, so a condition is recorded for going round from the
  // last block to itself: it is spurious exactly when that is a branch that can.
  method FindIntraProceduralPath(c: SuccLists, br: Branches, sameParent: bool, begin: Block, end: Block) returns (r: PathInformation)
    requires TwoWay(c, br)
    ensures r.cond.satisfiable <==> sameParent && ReachPlus(GraphOf(c), begin, end)
    ensures r.cond.satisfiable ==> Result(c, begin, end, r.blocks)
    ensures r.cond.satisfiable ==>
              var p := r.blocks[..|r.blocks| - 1];
              (r.cond.conditions == Conditions(c, br, p)) <==> (end !in br || end !in Succs(c, end))
    ensures !r.cond.satisfiable ==> r == PathInformation([], ConditionInfo(false, []))
  {
    if !sameParent {
      return PathInformation([], ConditionInfo(false, []));
    }
    var blockPath := FindPathBetweenBlocks(c, begin, end);
    if blockPath.None? {
      return PathInformation([], ConditionInfo(false, []));
    }
    var cond := SimplePathCondition(c, br, blockPath.value);
    ghost var p := blockPath.value[..|blockPath.value| - 1];
    assert blockPath.value == p + [end];
    ConditionsSnoc(c, br, p, end);
    return PathInformation(blockPath.value, cond);
  }

  // A loop of one block that is left on a false condition: the path into the
  // loop claims that the condition held.
  lemma SpuriousCondition()
    ensures var c, br := map[0 := [1], 1 := [1, 2]], map[1 := "v"];
            Joins(GraphOf(c), [0, 1], 0, 1) && Result(c, 0, 1, [0, 1, 1])
            && Conditions(c, br, [0, 1]) == [] && Conditions(c, br, [0, 1, 1]) == [Condition(true, "v")]
  {
    var c: SuccLists, br: Branches := map[0 := [1], 1 := [1, 2]], map[1 := "v"];
    SuccIsSuccs(c, 0);
    assert Succs(c, 0)[0] == 1;
    assert [0, 1, 1][..2] == [0, 1];
    assert Conditions(c, br, [1]) == [] && [0, 1][1..] == [1];
    assert [0, 1, 1][1..] == [1, 1] && [1, 1][1..] == [1];
    assert Conditions(c, br, [1, 1]) == [Condition(true, "v")];
  }
}
