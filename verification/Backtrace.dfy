// The backwards search from an entrypoint, on visitor nodes and trees of traces.
module Backtrace {
  import opened DistinctSeqs
  import opened NodeTraces
  import opened BacktraceSteps
  import opened BacktraceRuns

  function KeyFrom(t: NodeTree?): string {
    if t == null then "" else t.key
  }

  class VisitorNode {
    const node: CallNode
    const trace: NodeTree?
    const closureTrace: NodeTree?
    const kind: nat
    const prev: VisitorNode?
    const depth: nat
    ghost const path: Path  // the states from the entrypoint to this node
    var children: seq<VisitorNode>

    ghost function AsState(): State {
      State(node, LabelsFrom(trace), LabelsFrom(closureTrace), kind)
    }

    // Nothing here depends on the heap: only the list of children ever changes.
    ghost predicate Valid()
      decreases |path|
    {
      && (trace != null ==> trace.Valid()) && (closureTrace != null ==> closureTrace.Valid())
      && depth + 1 == |path|
      && (prev == null ==> path == [AsState()])
      && (prev != null ==> path == prev.path + [AsState()] && prev.Valid())
    }

    constructor (node: CallNode, trace: NodeTree?, closureTrace: NodeTree?, kind: nat, prev: VisitorNode?)
      requires (trace != null ==> trace.Valid()) && (closureTrace != null ==> closureTrace.Valid()) && (prev != null ==> prev.Valid())
      ensures Valid() && this.prev == prev && children == []
      ensures this.node == node && this.trace == trace && this.closureTrace == closureTrace && this.kind == kind
    {
      this.node, this.trace, this.closureTrace, this.kind, this.prev := node, trace, closureTrace, kind, prev;
      depth := if prev == null then 0 else prev.depth + 1;
      path := (if prev == null then [] else prev.path) + [State(node, LabelsFrom(trace), LabelsFrom(closureTrace), kind)];
      children := [];
    }

    function GetKey(): (k: string)
      requires Valid()
      ensures k == Key(AsState())
    {
      LongID(node) + "!" + (KeyFrom(trace) + "!" + (KeyFrom(closureTrace) + "_" + KindKey(kind)))
    }

    // The node before this one is an argument with a recorded edge, and the step
    // returns another element of the tuple.
    predicate IsMismatch(tuple: Tuple)
      requires Valid()
      ensures IsMismatch(tuple) <==> Mismatch(path, tuple)
    {
      if prev == null then false
      else
        PathEnds(prev);
        tuple.Return? && prev.node in tuple.infos && tuple.index != tuple.edgeIndex
    }

    method AddChild(c: VisitorNode)
      modifies `children
      ensures children == old(children) + [c]
    {
      children := children + [c];
    }
  }

  // The nodes of a path, from its end back to the entrypoint.
  ghost predicate TraceOf(t: seq<VisitorNode>, p: Path) {
    |t| == |p| && forall i :: 0 <= i < |t| ==> t[i].path == p[..|t| - i]
  }

  // The nodes after cur on the way from the entrypoint to end.
  ghost predicate Tracing(end: VisitorNode, t: seq<VisitorNode>, cur: VisitorNode?) {
    && (if t == [] then cur == end else t[0] == end)
    && |t| <= |end.path|
    && (forall i :: 0 <= i < |t| ==> t[i].path == end.path[..|end.path| - i])
    && (if cur == null then |t| == |end.path| else cur.Valid() && cur.path == end.path[..|end.path| - |t|])
  }

  lemma TracingStep(end: VisitorNode, t: seq<VisitorNode>, cur: VisitorNode)
    requires Tracing(end, t, cur)
    ensures Tracing(end, t + [cur], cur.prev)
    ensures cur.prev != null ==> |cur.prev.path| < |cur.path|
  {
    if cur.prev != null {
      assert cur.prev.path == cur.path[..|cur.path| - 1] == end.path[..|end.path| - |t| - 1];
    }
  }

  // The nodes of a trace, from the end back to the entrypoint.
  method FindTrace(end: VisitorNode) returns (t: seq<VisitorNode>)
    requires end.Valid()
    ensures TraceOf(t, end.path) && t != [] && t[0] == end
  {
    t := [];
    var cur: VisitorNode? := end;
    assert end.path[..|end.path|] == end.path;
    while cur != null
      invariant Tracing(end, t, cur) && end.path != []
      decreases if cur == null then 0 else |cur.path| + 1
    {
      TracingStep(end, t, cur);
      t := t + [cur];
      cur := cur.prev;
    }
  }

  method IsLasso(t: NodeTree?, repr: CallNode -> string) returns (r: bool)
    requires t != null ==> t.Valid()
    ensures r <==> HasLasso(repr, LabelsFrom(t))
  {
    if t == null {
      return false;
    }
    var handle := t.GetLassoHandle(repr);
    return handle != null;
  }

  // A trace that belongs to the tree, or none.
  ghost predicate In(t: NodeTree?, tree: set<NodeTree>) {
    t == null || t in tree
  }

  method NewTrace(x: CallNode, ghost tree: set<NodeTree>) returns (r: NodeTree)
    requires GoodTree(tree)
    ensures fresh(r) && r.labels == [x] && GoodTree(tree + {r})
  {
    r := new NodeTree(x);
    assert GoodTree(tree);
  }

  method ExtendTrace(t: NodeTree?, x: CallNode, ghost tree: set<NodeTree>) returns (r: NodeTree, ghost tree': set<NodeTree>)
    requires GoodTree(tree) && In(t, tree)
    modifies tree
    ensures tree <= tree' && fresh(tree' - tree) && GoodTree(tree') && r in tree'
    ensures r.labels == LabelsFrom(t) + [x]
  {
    if t == null {
      r := NewTrace(x, tree);
    } else {
      r := t.AddIn(x, tree);
    }
    tree' := tree + {r};
  }

  method MoveTrace(t: NodeTree?, m: TraceMove, ghost tree: set<NodeTree>) returns (r: NodeTree?, ghost tree': set<NodeTree>)
    requires GoodTree(tree) && In(t, tree)
    modifies tree
    ensures tree <= tree' && fresh(tree' - tree) && GoodTree(tree') && In(r, tree')
    ensures LabelsFrom(r) == Moved(LabelsFrom(t), m)
  {
    r, tree' := t, tree;
    match m
    case Keep =>
    case Drop =>
      r := null;
    case Pop =>
      if t != null {
        LabelsEnd(t);
        r := t.parent;
      }
    case Extend(x) =>
      r, tree' := ExtendTrace(t, x, tree);
  }

  method MoveBoth(cur: VisitorNode, m: Move, ghost tree: set<NodeTree>)
    returns (trace: NodeTree?, closureTrace: NodeTree?, ghost tree': set<NodeTree>)
    requires GoodTree(tree) && OnTree(cur, tree)
    modifies tree
    ensures tree <= tree' && fresh(tree' - tree) && GoodTree(tree') && In(trace, tree') && In(closureTrace, tree')
    ensures State(m.node, LabelsFrom(trace), LabelsFrom(closureTrace), m.kind) == Target(cur.AsState(), m)
  {
    trace, tree' := MoveTrace(cur.trace, m.onTrace, tree);
    closureTrace, tree' := MoveTrace(cur.closureTrace, m.onClosure, tree');
  }

  // Pushes a visitor for a node with its traces, unless the node returns another
  // element of a tuple, it was seen before or a trace is a lasso.
  method AddNext(w: World, stack: seq<VisitorNode>, cur: VisitorNode, node: CallNode, trace: NodeTree?, closureTrace: NodeTree?, kind: nat,
                 tuple: Tuple, seen: set<string>)
    returns (stack': seq<VisitorNode>, added: bool, seen': set<string>)
    requires cur.Valid() && (trace != null ==> trace.Valid()) && (closureTrace != null ==> closureTrace.Valid())
    modifies cur`children
    ensures var s := State(node, LabelsFrom(trace), LabelsFrom(closureTrace), kind);
            && (added <==>
                  && !(tuple.Return? && tuple.index != tuple.edgeIndex && cur.prev != null && cur.prev.node in tuple.infos)
                  && Key(s) !in seen && HasNoLasso(w, s))
            && (!added ==> stack' == stack && seen' == seen && cur.children == old(cur.children))
            && (added ==>
                  && seen' == seen + {Key(s)} && |stack'| == |stack| + 1 && stack' == stack + [stack'[|stack|]]
                  && var next := stack'[|stack|];
                     fresh(next) && next.Valid() && next.path == cur.path + [s] && next.trace == trace && next.closureTrace == closureTrace
                     && cur.children == old(cur.children) + [next])
  {
    var next := new VisitorNode(node, trace, closureTrace, kind, cur);
    if cur.IsMismatch(tuple) {
      return stack, false, seen;
    }
    var key := next.GetKey();
    if key in seen {
      return stack, false, seen;
    }
    var lasso := IsLasso(trace, w.calls);
    var closureLasso := IsLasso(closureTrace, w.closures);
    if lasso || closureLasso {
      return stack, false, seen;
    }
    cur.AddChild(next);
    return stack + [next], true, seen + {key};
  }

  // ------------------------------------------------------------ the search

  ghost function PathsOf(stack: seq<VisitorNode>): seq<Path> {
    seq(|stack|, i requires 0 <= i < |stack| => stack[i].path)
  }

  lemma PathsOfSnoc(stack: seq<VisitorNode>, v: VisitorNode)
    ensures PathsOf(stack + [v]) == PathsOf(stack) + [v.path]
  {
  }

  lemma PathEnds(v: VisitorNode)
    requires v.Valid()
    ensures v.path != [] && Last(v.path) == v.AsState() && |v.path| == v.depth + 1
  {
  }

  ghost predicate OnTree(v: VisitorNode, tree: set<NodeTree>) {
    v.Valid() && In(v.trace, tree) && In(v.closureTrace, tree)
  }

  ghost predicate AllOnTree(stack: seq<VisitorNode>, tree: set<NodeTree>) {
    forall i :: 0 <= i < |stack| ==> OnTree(stack[i], tree)
  }

  lemma AllOnTreeMono(stack: seq<VisitorNode>, tree: set<NodeTree>, tree': set<NodeTree>)
    requires AllOnTree(stack, tree) && tree <= tree'
    ensures AllOnTree(stack, tree')
  {
    forall i | 0 <= i < |stack| ensures OnTree(stack[i], tree') {
      assert OnTree(stack[i], tree);
    }
  }

  lemma AllOnTreeSnoc(stack: seq<VisitorNode>, v: VisitorNode, tree: set<NodeTree>)
    requires AllOnTree(stack, tree) && OnTree(v, tree)
    ensures AllOnTree(stack + [v], tree)
  {
  }

  // What one visit has left of the states that can still be pushed.
  ghost predicate Progress(w: World, pushed: seq<State>, pushed': seq<State>) {
    pushed' == pushed || AllStates(w) - Items(pushed') < AllStates(w) - Items(pushed)
  }

  lemma ProgressSnoc(w: World, pushed: seq<State>, mid: seq<State>, s: State)
    requires Progress(w, pushed, mid) && s in AllStates(w) && s !in Items(mid)
    ensures Progress(w, pushed, mid + [s]) && AllStates(w) - Items(mid + [s]) < AllStates(w) - Items(mid)
  {
    ItemsAppend(mid, [s]);
    assert s in Items([s]);
    assert s in AllStates(w) - Items(mid) && s !in AllStates(w) - Items(mid + [s]);
  }

  ghost predicate Grown(stack: seq<VisitorNode>, stack': seq<VisitorNode>) {
    stack' == stack || (|stack'| == |stack| + 1 && stack' == stack + [stack'[|stack|]])
  }

  // Follows one step from the node being visited.
  method FollowStep(run: Run, w: World, cur: VisitorNode, m: Move, stack: seq<VisitorNode>, seen: set<string>,
                    ghost root: State, ghost log: seq<Path>, ghost pushed: seq<State>, ghost tree: set<NodeTree>, ghost j: nat)
    returns (stack': seq<VisitorNode>, seen': set<string>, ghost pushed': seq<State>, ghost tree': set<NodeTree>, ghost made: set<VisitorNode>)
    requires Expanding(run, w, root, log, pushed, PathsOf(stack), j) && KeysOfStates(seen, pushed)
    requires log[|log| - 1] == cur.path && cur.path != [] && Expands(run, cur.path) && Good(w, Last(cur.path))
    requires j < |run.moves(|log| - 1)| && m == run.moves(|log| - 1)[j] && StepIn(w, m)
    requires GoodTree(tree) && OnTree(cur, tree) && AllOnTree(stack, tree)
    modifies tree, cur
    ensures Expanding(run, w, root, log, pushed', PathsOf(stack'), j + 1) && KeysOfStates(seen', pushed')
    ensures tree <= tree' && fresh(tree' - tree) && GoodTree(tree') && AllOnTree(stack', tree')
    ensures Progress(w, pushed, pushed') && Grown(stack, stack') && (if stack' == stack then pushed' == pushed else |pushed'| == |pushed| + 1)
    ensures NewFrom(run, w, log, pushed, pushed', |log| - 1)
    ensures fresh(made) && Items(stack') <= Items(stack) + made
  {
    var trace, closureTrace;
    PathEnds(cur);
    trace, closureTrace, tree' := MoveBoth(cur, m, tree);
    AllOnTreeMono(stack, tree, tree');
    stack', seen', pushed', made := PushTarget(run, w, cur, m, trace, closureTrace, stack, seen, root, log, pushed, tree', j);
  }

  lemma ItemsSnoc(stack: seq<VisitorNode>, v: VisitorNode)
    ensures Items(stack + [v]) == Items(stack) + {v}
  {
    ItemsAppend(stack, [v]);
    assert Items([v]) == {v};
  }

  lemma NewFromOne(run: Run, w: World, log: seq<Path>, pushed: seq<State>, s: State)
    requires log != [] && FoundAt(run, w, log, |log| - 1, log[|log| - 1], s)
    ensures NewFrom(run, w, log, pushed, pushed + [s], |log| - 1)
  {
  }

  // Pushes the state that a step leads to, with its traces.
  method PushTarget(run: Run, w: World, cur: VisitorNode, m: Move, trace: NodeTree?, closureTrace: NodeTree?,
                    stack: seq<VisitorNode>, seen: set<string>,
                    ghost root: State, ghost log: seq<Path>, ghost pushed: seq<State>, ghost tree: set<NodeTree>, ghost j: nat)
    returns (stack': seq<VisitorNode>, seen': set<string>, ghost pushed': seq<State>, ghost made: set<VisitorNode>)
    requires Expanding(run, w, root, log, pushed, PathsOf(stack), j) && KeysOfStates(seen, pushed)
    requires log[|log| - 1] == cur.path && cur.path != [] && Expands(run, cur.path) && Good(w, Last(cur.path))
    requires j < |run.moves(|log| - 1)| && m == run.moves(|log| - 1)[j] && StepIn(w, m)
    requires GoodTree(tree) && cur.Valid() && In(trace, tree) && In(closureTrace, tree) && AllOnTree(stack, tree)
    requires State(m.node, LabelsFrom(trace), LabelsFrom(closureTrace), m.kind) == Target(cur.AsState(), m)
    modifies cur
    ensures Expanding(run, w, root, log, pushed', PathsOf(stack'), j + 1) && KeysOfStates(seen', pushed')
    ensures AllOnTree(stack', tree)
    ensures Progress(w, pushed, pushed') && Grown(stack, stack') && (if stack' == stack then pushed' == pushed else |pushed'| == |pushed| + 1)
    ensures NewFrom(run, w, log, pushed, pushed', |log| - 1)
    ensures fresh(made) && Items(stack') <= Items(stack) + made
  {
    PathEnds(cur);
    ghost var s := Target(cur.AsState(), m);
    AddStep(run, w, root, log, pushed, PathsOf(stack), j, cur.path, s);
    KeysGrow(seen, pushed, s);
    assert cur.IsMismatch(m.tuple) <==> Mismatch(cur.path, m.tuple);
    var added;
    stack', added, seen' := AddNext(w, stack, cur, m.node, trace, closureTrace, m.kind, m.tuple, seen);
    pushed', made := pushed, {};
    if added {
      ghost var next := stack'[|stack|];
      made := {next};
      ItemsSnoc(stack, next);
      pushed' := pushed + [s];
      PathsOfSnoc(stack, next);
      AllOnTreeSnoc(stack, next, tree);
      ProgressSnoc(w, pushed, pushed, s);
      NewFromOne(run, w, log, pushed, s);
    }
  }

  // Visit n has pushed what is new on the stack.
  ghost predicate Pushing(run: Run, w: World, log: seq<Path>, n: nat, pushed: seq<State>, pushed': seq<State>,
                          stack: seq<VisitorNode>, stack': seq<VisitorNode>)
  {
    && Progress(w, pushed, pushed') && NewFrom(run, w, log, pushed, pushed', n)
    && stack <= stack' && |pushed'| - |pushed| == |stack'| - |stack|
  }

  lemma PushingStep(run: Run, w: World, log: seq<Path>, n: nat, pushed: seq<State>, mid: seq<State>, pushed': seq<State>,
                    stack: seq<VisitorNode>, stack0: seq<VisitorNode>, stack': seq<VisitorNode>)
    requires Pushing(run, w, log, n, pushed, mid, stack, stack0)
    requires Progress(w, mid, pushed') && NewFrom(run, w, log, mid, pushed', n) && Grown(stack0, stack')
    requires if stack' == stack0 then pushed' == mid else |pushed'| == |mid| + 1
    ensures Pushing(run, w, log, n, pushed, pushed', stack, stack')
  {
    forall k | |pushed| <= k < |pushed'| ensures FoundAt(run, w, log, n, log[n], pushed'[k]) {
      if k < |mid| {
        assert pushed'[k] == mid[k];
      }
    }
  }

  ghost predicate Placed(cur: VisitorNode, stack: seq<VisitorNode>, tree: set<NodeTree>)
    reads tree
  {
    GoodTree(tree) && OnTree(cur, tree) && AllOnTree(stack, tree)
  }

  // Follows all steps that visit number n finds.
  method FollowAll(run: Run, w: World, cur: VisitorNode, n: nat, stack: seq<VisitorNode>, seen: set<string>,
                   ghost root: State, ghost log: seq<Path>, ghost pushed: seq<State>, ghost tree: set<NodeTree>)
    returns (stack': seq<VisitorNode>, seen': set<string>, ghost pushed': seq<State>, ghost tree': set<NodeTree>, ghost made: set<VisitorNode>)
    requires Expanding(run, w, root, log, pushed, PathsOf(stack), 0) && KeysOfStates(seen, pushed) && n + 1 == |log|
    requires log[n] == cur.path && cur.path != [] && Expands(run, cur.path) && Good(w, Last(cur.path))
    requires forall k :: 0 <= k < |run.moves(n)| ==> StepIn(w, run.moves(n)[k])
    requires GoodTree(tree) && OnTree(cur, tree) && AllOnTree(stack, tree)
    modifies tree, cur
    ensures Searching(run, w, root, log, pushed', PathsOf(stack')) && KeysOfStates(seen', pushed')
    ensures tree <= tree' && fresh(tree' - tree) && GoodTree(tree') && AllOnTree(stack', tree')
    ensures Progress(w, pushed, pushed') && (pushed' == pushed <==> stack' == stack) && NewFrom(run, w, log, pushed, pushed', n)
    ensures fresh(made) && Items(stack') <= Items(stack) + made
  {
    stack', seen', pushed', tree', made := stack, seen, pushed, tree, {};
    var moves := run.moves(n);
    for j := 0 to |moves|
      invariant Expanding(run, w, root, log, pushed', PathsOf(stack'), j) && KeysOfStates(seen', pushed')
      invariant tree <= tree' && fresh(tree' - tree) && Placed(cur, stack', tree')
      invariant Pushing(run, w, log, n, pushed, pushed', stack, stack')
      invariant fresh(made) && Items(stack') <= Items(stack) + made
    {
      ghost var stack0, pushed0 := stack', pushed';
      ghost var made1;
      stack', seen', pushed', tree', made1 := FollowStep(run, w, cur, moves[j], stack', seen', root, log, pushed', tree', j);
      PushingStep(run, w, log, n, pushed, pushed0, pushed', stack, stack0, stack');
      made := made + made1;
    }
    VisitDone(run, w, root, log, pushed', PathsOf(stack'), |moves|);
  }

  // Visit n ends a trace: it looked no further, or it could have but pushed nothing.
  ghost predicate EndsTrace(run: Run, log: seq<Path>, froms: seq<nat>, n: nat)
    requires n < |log|
  {
    && log[n] != [] && !run.unwanted(Last(log[n]).node)
    && (!Expands(run, log[n]) || (n !in froms && run.recordsIfStuck(Last(log[n]).node)))
  }

  // The traces recorded so far are those of the visits that ended one, each once.
  ghost predicate Recorded(run: Run, log: seq<Path>, froms: seq<nat>, traces: seq<seq<VisitorNode>>) {
    && NoDup(traces)
    && (forall t :: t in traces ==> t != [] && EndedTrace(run, log, froms, t))
    && (forall n :: 0 <= n < |log| && EndsTrace(run, log, froms, n) ==> HasTrace(traces, log[n]))
  }

  lemma EndsStays(run: Run, log: seq<Path>, froms: seq<nat>, p: Path, froms': seq<nat>, n: nat)
    requires n < |log| && (n in froms' <==> n in froms)
    ensures EndsTrace(run, log + [p], froms', n) <==> EndsTrace(run, log, froms, n)
  {
    assert (log + [p])[n] == log[n];
  }

  // u is the trace of a visit that ended one.
  ghost predicate EndedTrace(run: Run, log: seq<Path>, froms: seq<nat>, u: seq<VisitorNode>) {
    exists n :: 0 <= n < |log| && EndsTrace(run, log, froms, n) && TraceOf(u, log[n])
  }

  lemma EndedStays(run: Run, log: seq<Path>, froms: seq<nat>, p: Path, froms': seq<nat>, u: seq<VisitorNode>)
    requires forall n :: n < |log| ==> (n in froms' <==> n in froms)
    requires EndedTrace(run, log, froms, u)
    ensures EndedTrace(run, log + [p], froms', u)
  {
    var n :| 0 <= n < |log| && EndsTrace(run, log, froms, n) && TraceOf(u, log[n]);
    EndsStays(run, log, froms, p, froms', n);
    assert (log + [p])[n] == log[n];
  }

  lemma EndedNow(run: Run, log: seq<Path>, p: Path, froms': seq<nat>, t: seq<VisitorNode>)
    requires EndsTrace(run, log + [p], froms', |log|) && TraceOf(t, p)
    ensures EndedTrace(run, log + [p], froms', t)
  {
    assert (log + [p])[|log|] == p;
  }

  // The trace of visit n has been recorded.
  ghost predicate HasTrace(traces: seq<seq<VisitorNode>>, p: Path) {
    exists t :: t in traces && TraceOf(t, p)
  }

  lemma HasTraceStays(traces: seq<seq<VisitorNode>>, t: seq<VisitorNode>, p: Path)
    requires HasTrace(traces, p)
    ensures HasTrace(traces + [t], p)
  {
    var u :| u in traces && TraceOf(u, p);
    assert u in traces + [t];
  }

  // One more visit, which recorded t if it ended a trace and t was not there.
  lemma RecordedVisit(run: Run, log: seq<Path>, froms: seq<nat>, traces: seq<seq<VisitorNode>>,
                      p: Path, froms': seq<nat>, traces': seq<seq<VisitorNode>>, t: seq<VisitorNode>)
    requires Recorded(run, log, froms, traces) && TraceOf(t, p) && t != []
    requires forall n :: n < |log| ==> (n in froms' <==> n in froms)
    requires traces' == if EndsTrace(run, log + [p], froms', |log|) && t !in traces then traces + [t] else traces
    ensures Recorded(run, log + [p], froms', traces')
  {
    NoDupSnoc(traces, t);
    forall u | u in traces' ensures u != [] && EndedTrace(run, log + [p], froms', u) {
      if u in traces {
        EndedStays(run, log, froms, p, froms', u);
      } else {
        EndedNow(run, log, p, froms', t);
      }
    }
    forall n | 0 <= n < |log + [p]| && EndsTrace(run, log + [p], froms', n) ensures HasTrace(traces', (log + [p])[n]) {
      if n < |log| {
        EndsStays(run, log, froms, p, froms', n);
        assert (log + [p])[n] == log[n];
        HasTraceStays(traces, t, log[n]);
      } else {
        assert (log + [p])[n] == p && t in traces';
      }
    }
  }

  // Whether two traces have the same nodes.
  method SameTrace(t: seq<VisitorNode>, u: seq<VisitorNode>) returns (same: bool)
    ensures same <==> t == u
  {
    if |t| != |u| {
      return false;
    }
    for i := 0 to |t|
      invariant t[..i] == u[..i]
    {
      if t[i] != u[i] {
        return false;
      }
    }
    return true;
  }

  // Records a trace unless it ends at an unwanted node or has been recorded.
  method AddTrace(run: Run, traces: seq<seq<VisitorNode>>, t: seq<VisitorNode>) returns (traces': seq<seq<VisitorNode>>)
    requires t != []
    ensures traces' == if run.unwanted(t[0].node) || t in traces then traces else traces + [t]
  {
    if run.unwanted(t[0].node) {
      return traces;
    }
    for i := 0 to |traces|
      invariant t !in traces[..i]
    {
      var same := SameTrace(traces[i], t);
      if same {
        return traces;
      }
    }
    return traces + [t];
  }

  lemma TopOfStack(stack: seq<VisitorNode>, tree: set<NodeTree>)
    requires stack != [] && AllOnTree(stack, tree)
    ensures var top, rest := stack[|stack| - 1], stack[..|stack| - 1];
            PathsOf(stack) == PathsOf(rest) + [top.path] && OnTree(top, tree) && AllOnTree(rest, tree)
  {
    var rest := stack[..|stack| - 1];
    forall i | 0 <= i < |rest| ensures OnTree(rest[i], tree) {
      assert rest[i] == stack[i];
    }
    PathsOfSnoc(rest, stack[|stack| - 1]);
    assert stack == rest + [stack[|stack| - 1]];
  }

  lemma VisitStarts(run: Run, w: World, root: State, log: seq<Path>, pushed: seq<State>, stack: seq<VisitorNode>)
    requires stack != [] && Searching(run, w, root, log, pushed, PathsOf(stack)) && Good(w, root)
    ensures var top, rest := stack[|stack| - 1], stack[..|stack| - 1];
            top.path != [] && Good(w, Last(top.path)) && Expanding(run, w, root, log + [top.path], pushed, PathsOf(rest), 0)
  {
    var top, rest := stack[|stack| - 1], stack[..|stack| - 1];
    PathsOfSnoc(rest, top);
    assert stack == rest + [top];
    TopIsGood(run, w, root, log, pushed, PathsOf(rest), top.path);
    PopStep(run, w, root, log, pushed, PathsOf(rest), top.path);
  }

  // Looks into the node of visit number n, unless it is a base case or too deep;
  // record tells whether a trace ends here.
  method LookInto(run: Run, w: World, cur: VisitorNode, n: nat, stack: seq<VisitorNode>, seen: set<string>,
                  ghost root: State, ghost log: seq<Path>, ghost pushed: seq<State>, ghost tree: set<NodeTree>)
    returns (stack': seq<VisitorNode>, seen': set<string>, record: bool,
             ghost pushed': seq<State>, ghost tree': set<NodeTree>, ghost made: set<VisitorNode>)
    requires Expanding(run, w, root, log, pushed, PathsOf(stack), 0) && KeysOfStates(seen, pushed) && n + 1 == |log|
    requires log[n] == cur.path && cur.path != [] && Good(w, Last(cur.path))
    requires forall k :: 0 <= k < |run.moves(n)| ==> StepIn(w, run.moves(n)[k])
    requires GoodTree(tree) && OnTree(cur, tree) && AllOnTree(stack, tree)
    modifies tree, cur
    ensures Searching(run, w, root, log, pushed', PathsOf(stack')) && KeysOfStates(seen', pushed')
    ensures tree <= tree' && fresh(tree' - tree) && GoodTree(tree') && AllOnTree(stack', tree')
    ensures Progress(w, pushed, pushed') && (pushed' == pushed <==> stack' == stack) && NewFrom(run, w, log, pushed, pushed', n)
    ensures fresh(made) && Items(stack') <= Items(stack) + made
    ensures record <==> !Expands(run, cur.path) || (pushed' == pushed && run.recordsIfStuck(cur.node))
  {
    PathEnds(cur);
    if run.base(cur.node) || TooDeep(run, cur.depth) {
      VisitDone(run, w, root, log, pushed, PathsOf(stack), 0);
      return stack, seen, true, pushed, tree, {};
    }
    stack', seen', pushed', tree', made := FollowAll(run, w, cur, n, stack, seen, root, log, pushed, tree);
    record := |stack'| == |stack| && run.recordsIfStuck(cur.node);
  }

  // The search between two visits.
  ghost predicate Visiting(run: Run, w: World, root: State, log: seq<Path>, pushed: seq<State>, froms: seq<nat>,
                           stack: seq<VisitorNode>, seen: set<string>, traces: seq<seq<VisitorNode>>)
  {
    && Searching(run, w, root, log, pushed, PathsOf(stack)) && KeysOfStates(seen, pushed)
    && Recorded(run, log, froms, traces) && PushedBy(run, w, log, pushed, froms)
  }

  ghost predicate OnTrees(stack: seq<VisitorNode>, tree: set<NodeTree>, nodes: set<VisitorNode>)
    reads tree
  {
    GoodTree(tree) && AllOnTree(stack, tree) && Items(stack) <= nodes
  }

  // Visits the node on top of the stack, as visit number n.
  method VisitTop(run: Run, w: World, n: nat, stack: seq<VisitorNode>, seen: set<string>, traces: seq<seq<VisitorNode>>,
                  ghost root: State, ghost log: seq<Path>, ghost pushed: seq<State>, ghost froms: seq<nat>,
                  ghost tree: set<NodeTree>, ghost nodes: set<VisitorNode>)
    returns (stack': seq<VisitorNode>, seen': set<string>, traces': seq<seq<VisitorNode>>,
             ghost pushed': seq<State>, ghost froms': seq<nat>, ghost tree': set<NodeTree>, ghost nodes': set<VisitorNode>)
    requires stack != [] && n == |log| && Good(w, root)
    requires Visiting(run, w, root, log, pushed, froms, stack, seen, traces)
    requires forall k :: 0 <= k < |run.moves(n)| ==> StepIn(w, run.moves(n)[k])
    requires OnTrees(stack, tree, nodes)
    modifies tree, nodes
    ensures Visiting(run, w, root, log + [stack[|stack| - 1].path], pushed', froms', stack', seen', traces')
    ensures OnTrees(stack', tree', nodes') && fresh(tree' - tree) && fresh(nodes' - nodes)
    ensures if pushed' == pushed then |stack'| < |stack| else AllStates(w) - Items(pushed') < AllStates(w) - Items(pushed)
  {
    assert stack[|stack| - 1] in Items(stack);
    var cur, rest := stack[|stack| - 1], stack[..|stack| - 1];
    TopOfStack(stack, tree);
    VisitStarts(run, w, root, log, pushed, stack);
    var record;
    ghost var made;
    stack', seen', record, pushed', tree', made := LookInto(run, w, cur, n, rest, seen, root, log + [cur.path], pushed, tree);
    froms' := FromVisit(froms, |pushed'| - |pushed|, n);
    PushedByVisit(run, w, log, cur.path, pushed, pushed', froms);
    nodes' := nodes + made;
    assert Items(rest) <= Items(stack);
    traces' := RecordVisit(run, cur, record, traces, log, froms, froms');
  }

  // Adds the trace of a visit that is to be recorded.
  method RecordVisit(run: Run, cur: VisitorNode, record: bool, traces: seq<seq<VisitorNode>>,
                     ghost log: seq<Path>, ghost froms: seq<nat>, ghost froms': seq<nat>)
    returns (traces': seq<seq<VisitorNode>>)
    requires cur.Valid() && Recorded(run, log, froms, traces)
    requires forall n :: n < |log| ==> (n in froms' <==> n in froms)
    requires cur.path != [] && (record <==> !Expands(run, cur.path) || (|log| !in froms' && run.recordsIfStuck(cur.node)))
    ensures Recorded(run, log + [cur.path], froms', traces')
  {
    var t := FindTrace(cur);
    PathEnds(cur);
    traces' := traces;
    if record {
      traces' := AddTrace(run, traces, t);
    }
    RecordedVisit(run, log, froms, traces, cur.path, froms', traces', t);
  }

  lemma VisitingStarts(run: Run, w: World, s: State, root: VisitorNode)
    requires root.path == [s]
    ensures Visiting(run, w, s, [], [], [], [root], {}, [])
  {
    assert PathsOf([root]) == [[s]];
    SearchingStarts(run, w, s);
  }

  // Searches backwards from an entrypoint.  The log lists the visits in order,
  // froms says which visit pushed each state.
  method Visit(run: Run, w: World, node: CallNode, trace: NodeTree?, closureTrace: NodeTree?, kind: nat, ghost tree: set<NodeTree>)
    returns (traces: seq<seq<VisitorNode>>, ghost log: seq<Path>, ghost pushed: seq<State>, ghost froms: seq<nat>)
    requires GoodTree(tree) && In(trace, tree) && In(closureTrace, tree)
    requires Good(w, State(node, LabelsFrom(trace), LabelsFrom(closureTrace), kind))
    requires forall n: nat, k :: 0 <= k < |run.moves(n)| ==> StepIn(w, run.moves(n)[k])
    modifies tree
    ensures Searching(run, w, State(node, LabelsFrom(trace), LabelsFrom(closureTrace), kind), log, pushed, [])
    ensures Recorded(run, log, froms, traces) && PushedBy(run, w, log, pushed, froms)
    ensures forall n :: 0 <= n < |log| ==> MatchedPath(run, log, log[n])
  {
    var root := new VisitorNode(node, trace, closureTrace, kind, null);
    ghost var s := State(node, LabelsFrom(trace), LabelsFrom(closureTrace), kind);
    VisitingStarts(run, w, s, root);
    assert OnTree(root, tree);
    traces, log, pushed, froms := VisitFrom(run, w, root, s, tree, {root});
    VisitedMatches(run, w, s, log, pushed, []);
  }

  // The loop of the search; nodes are the visitor nodes made so far.
  method VisitFrom(run: Run, w: World, root: VisitorNode, ghost s: State, ghost tree: set<NodeTree>, ghost nodes: set<VisitorNode>)
    returns (traces: seq<seq<VisitorNode>>, ghost log: seq<Path>, ghost pushed: seq<State>, ghost froms: seq<nat>)
    requires Good(w, s) && Visiting(run, w, s, [], [], [], [root], {}, []) && OnTrees([root], tree, nodes)
    requires forall n: nat, k :: 0 <= k < |run.moves(n)| ==> StepIn(w, run.moves(n)[k])
    modifies tree, nodes
    ensures Searching(run, w, s, log, pushed, []) && Recorded(run, log, froms, traces) && PushedBy(run, w, log, pushed, froms)
  {
    var stack, seen, n := [root], {}, 0;
    ghost var tree', nodes' := tree, nodes;
    traces, log, pushed, froms := [], [], [], [];
    while stack != []
      invariant n == |log| && Visiting(run, w, s, log, pushed, froms, stack, seen, traces)
      invariant OnTrees(stack, tree', nodes')
      invariant fresh(tree' - tree) && fresh(nodes' - nodes)
      decreases AllStates(w) - Items(pushed), |stack|
    {
      ghost var path := stack[|stack| - 1].path;
      stack, seen, traces, pushed, froms, tree', nodes' :=
        VisitTop(run, w, n, stack, seen, traces, s, log, pushed, froms, tree', nodes');
      log, n := log + [path], n + 1;
    }
    assert PathsOf(stack) == [];
  }
}
