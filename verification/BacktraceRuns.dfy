// Runs of the backwards search, on values: which states are visited, along
// which paths, and why the search ends.
module BacktraceRuns {
  import opened DistinctSeqs
  import opened NodeTraces
  import opened BacktraceSteps

  // What the search depends on.  moves(n) are the steps that the n-th visit finds,
  // however it finds them; base tells which nodes are not looked into any further,
  // recordsIfStuck for which nodes a visit that pushes nothing ends a trace, and
  // unwanted at which nodes no trace may end.
  datatype Run = Run(moves: nat -> seq<Move>, base: CallNode -> bool, recordsIfStuck: CallNode -> bool,
                     unwanted: CallNode -> bool, maxDepth: int)

  // A visited node together with the nodes that led to it from the entrypoint.
  type Path = seq<State>

  function Last(p: Path): State
    requires p != []
  {
    p[|p| - 1]
  }

  // The step would reach another element of the tuple than the one wanted by the
  // argument that p came from before its end.
  predicate Mismatch(p: Path, t: Tuple) {
    t.Return? && |p| > 1 && p[|p| - 2].node in t.infos && t.index != t.edgeIndex
  }

  predicate TooDeep(run: Run, depth: int) {
    run.maxDepth > 0 && depth > run.maxDepth
  }

  predicate Expands(run: Run, p: Path)
    requires p != []
  {
    !run.base(Last(p).node) && !TooDeep(run, |p| - 1)
  }

  // The steps from a node are followed unless it is a base case or deeper than
  // the limit, if there is one.
  lemma ExpandsUnlessDeep(run: Run, p: Path)
    requires p != []
    ensures Expands(run, p) <==> !run.base(p[|p| - 1].node) && (run.maxDepth <= 0 || |p| - 1 <= run.maxDepth)
  {
  }

  // Visit n was of q and found a step to s, which is no lasso and no mismatch.
  ghost predicate FoundAt(run: Run, w: World, log: seq<Path>, n: nat, q: Path, s: State) {
    && n < |log| && log[n] == q && q != [] && Expands(run, q) && HasNoLasso(w, s)
    && exists k :: 0 <= k < |run.moves(n)| && s == Target(Last(q), run.moves(n)[k]) && !Mismatch(q, run.moves(n)[k].tuple)
  }

  ghost predicate StepFrom(run: Run, w: World, log: seq<Path>, q: Path, s: State) {
    exists n :: FoundAt(run, w, log, n, q, s)
  }

  ghost predicate FlowPath(run: Run, w: World, log: seq<Path>, root: State, p: Path) {
    && p != [] && p[0] == root
    && forall i :: 0 < i < |p| ==> StepFrom(run, w, log, p[..i], p[i])
  }

  lemma StepFromMono(run: Run, w: World, log: seq<Path>, p: Path, q: Path, s: State)
    requires StepFrom(run, w, log, q, s)
    ensures StepFrom(run, w, log + [p], q, s)
  {
    var n :| FoundAt(run, w, log, n, q, s);
    assert FoundAt(run, w, log + [p], n, q, s);
  }

  lemma FlowPathMono(run: Run, w: World, log: seq<Path>, root: State, p: Path, q: Path)
    requires FlowPath(run, w, log, root, q)
    ensures FlowPath(run, w, log + [p], root, q)
  {
    forall i | 0 < i < |q| ensures StepFrom(run, w, log + [p], q[..i], q[i]) {
      StepFromMono(run, w, log, p, q[..i], q[i]);
    }
  }

  lemma FlowPathSnoc(run: Run, w: World, log: seq<Path>, root: State, q: Path, s: State)
    requires FlowPath(run, w, log, root, q) && StepFrom(run, w, log, q, s)
    ensures FlowPath(run, w, log, root, q + [s])
  {
    var p := q + [s];
    forall i | 0 < i < |p| ensures StepFrom(run, w, log, p[..i], p[i]) {
      if i < |q| {
        assert p[..i] == q[..i];
      } else {
        assert p[..i] == q;
      }
    }
  }

  lemma FoundAtMono(run: Run, w: World, log: seq<Path>, p: Path, n: nat, q: Path, s: State)
    requires FoundAt(run, w, log, n, q, s)
    ensures FoundAt(run, w, log + [p], n, q, s)
  {
  }

  // Which visit pushed each of the states.
  ghost predicate PushedBy(run: Run, w: World, log: seq<Path>, pushed: seq<State>, froms: seq<nat>) {
    |froms| == |pushed|
    && forall k :: 0 <= k < |pushed| ==> froms[k] < |log| && FoundAt(run, w, log, froms[k], log[froms[k]], pushed[k])
  }

  // What is new in pushed' was pushed by visit n.
  ghost predicate NewFrom(run: Run, w: World, log: seq<Path>, pushed: seq<State>, pushed': seq<State>, n: nat) {
    n < |log| && pushed <= pushed' && forall k :: |pushed| <= k < |pushed'| ==> FoundAt(run, w, log, n, log[n], pushed'[k])
  }

  function FromVisit(froms: seq<nat>, more: nat, n: nat): seq<nat> {
    froms + seq(more, _ => n)
  }

  lemma PushedByVisit(run: Run, w: World, log: seq<Path>, p: Path, pushed: seq<State>, pushed': seq<State>, froms: seq<nat>)
    requires PushedBy(run, w, log, pushed, froms) && NewFrom(run, w, log + [p], pushed, pushed', |log|)
    ensures PushedBy(run, w, log + [p], pushed', FromVisit(froms, |pushed'| - |pushed|, |log|))
    ensures var froms' := FromVisit(froms, |pushed'| - |pushed|, |log|);
      (|log| in froms' <==> pushed' != pushed) && forall n :: n < |log| ==> (n in froms' <==> n in froms)
  {
    var more := |pushed'| - |pushed|;
    var froms' := FromVisit(froms, more, |log|);
    forall k | 0 <= k < |pushed'| ensures froms'[k] < |log| + 1 && FoundAt(run, w, log + [p], froms'[k], (log + [p])[froms'[k]], pushed'[k]) {
      if k < |pushed| {
        assert pushed'[k] == pushed[k];
        FoundAtMono(run, w, log, p, froms[k], log[froms[k]], pushed[k]);
      }
    }
    if more > 0 {
      assert froms'[|froms|] == |log|;
    } else {
      assert froms' == froms;
    }
    forall n | n < |log| && n in froms ensures n in froms' {
      var k :| 0 <= k < |froms| && froms[k] == n;
      assert froms'[k] == n;
    }
  }

  ghost function Lasts(ps: seq<Path>): set<State> {
    set i | 0 <= i < |ps| && ps[i] != [] :: Last(ps[i])
  }

  lemma LastsSnoc(ps: seq<Path>, p: Path)
    requires p != []
    ensures Lasts(ps + [p]) == Lasts(ps) + {Last(p)}
  {
    var qs := ps + [p];
    forall s | s in Lasts(ps) ensures s in Lasts(qs) {
      var i :| 0 <= i < |ps| && ps[i] != [] && Last(ps[i]) == s;
      assert qs[i] == ps[i];
    }
    assert qs[|ps|] == p;
  }

  // ------------------------------------------------------------ the state of the search

  // Of the steps of visit n, the first upto that are no lasso and no mismatch
  // were pushed.
  ghost predicate Followed(run: Run, w: World, log: seq<Path>, pushed: set<State>, n: nat, upto: nat)
    requires n < |log|
  {
    log[n] != [] && Expands(run, log[n]) ==>
      forall k :: 0 <= k < upto && k < |run.moves(n)| && !Mismatch(log[n], run.moves(n)[k].tuple)
                  && HasNoLasso(w, Target(Last(log[n]), run.moves(n)[k])) ==>
        Target(Last(log[n]), run.moves(n)[k]) in pushed
  }

  ghost predicate AllFlow(run: Run, w: World, log: seq<Path>, root: State, ps: seq<Path>) {
    forall i {:trigger FlowPath(run, w, log, root, ps[i])} :: 0 <= i < |ps| ==> FlowPath(run, w, log, root, ps[i])
  }

  ghost predicate AllGood(w: World, states: set<State>) {
    forall s :: s in states ==> Good(w, s) && HasNoLasso(w, s) && s in AllStates(w)
  }

  lemma AllFlowSnoc(run: Run, w: World, log: seq<Path>, root: State, ps: seq<Path>, p: Path)
    requires AllFlow(run, w, log, root, ps) && FlowPath(run, w, log, root, p)
    ensures AllFlow(run, w, log, root, ps + [p])
  {
    forall i | 0 <= i < |ps + [p]| ensures FlowPath(run, w, log, root, (ps + [p])[i]) {
      if i < |ps| {
        assert FlowPath(run, w, log, root, ps[i]);
      }
    }
  }

  // Everything but what the visits have followed.
  ghost predicate Tracked(run: Run, w: World, root: State, log: seq<Path>, pushed: seq<State>, stack: seq<Path>) {
    && NoDup(pushed) && AllGood(w, Items(pushed))
    && AllFlow(run, w, log, root, log) && AllFlow(run, w, log, root, stack)
    && Lasts(log) + Lasts(stack) == Items(pushed) + {root}
    && |log| + |stack| == |pushed| + 1
  }

  ghost predicate Searching(run: Run, w: World, root: State, log: seq<Path>, pushed: seq<State>, stack: seq<Path>) {
    && Tracked(run, w, root, log, pushed, stack)
    && forall n :: 0 <= n < |log| ==> Followed(run, w, log, Items(pushed), n, |run.moves(n)|)
  }

  lemma TopIsGood(run: Run, w: World, root: State, log: seq<Path>, pushed: seq<State>, stack: seq<Path>, p: Path)
    requires Tracked(run, w, root, log, pushed, stack + [p]) && Good(w, root)
    ensures p != [] && Good(w, Last(p))
  {
    assert (stack + [p])[|stack|] == p;
    assert FlowPath(run, w, log, root, (stack + [p])[|stack|]);
    LastsSnoc(stack, p);
    assert Last(p) in Lasts(log) + Lasts(stack + [p]);
  }

  // In the middle of the last visit.
  ghost predicate Expanding(run: Run, w: World, root: State, log: seq<Path>, pushed: seq<State>, stack: seq<Path>, j: nat) {
    && Tracked(run, w, root, log, pushed, stack) && log != []
    && (forall n :: 0 <= n < |log| - 1 ==> Followed(run, w, log, Items(pushed), n, |run.moves(n)|))
    && Followed(run, w, log, Items(pushed), |log| - 1, j)
  }

  lemma SearchingStarts(run: Run, w: World, root: State)
    ensures Searching(run, w, root, [], [], [[root]])
  {
    assert Lasts([[root]]) == {root} by {
      LastsSnoc([], [root]);
      assert [] + [[root]] == [[root]] && Lasts([]) == {};
    }
    assert FlowPath(run, w, [], root, [root]);
  }

  lemma PopStep(run: Run, w: World, root: State, log: seq<Path>, pushed: seq<State>, stack: seq<Path>, p: Path)
    requires Searching(run, w, root, log, pushed, stack + [p])
    ensures Expanding(run, w, root, log + [p], pushed, stack, 0) && p != []
  {
    var log' := log + [p];
    assert (stack + [p])[|stack|] == p;
    assert FlowPath(run, w, log, root, p);
    LastsSnoc(stack, p);
    LastsSnoc(log, p);
    forall i | 0 <= i < |log'| ensures FlowPath(run, w, log', root, log'[i]) {
      FlowPathMono(run, w, log, root, p, log'[i]);
    }
    forall i | 0 <= i < |stack| ensures FlowPath(run, w, log', root, stack[i]) {
      assert (stack + [p])[i] == stack[i];
      FlowPathMono(run, w, log, root, p, stack[i]);
    }
    forall n | 0 <= n < |log| ensures Followed(run, w, log', Items(pushed), n, |run.moves(n)|) {
      assert Followed(run, w, log, Items(pushed), n, |run.moves(n)|);
    }
  }

  lemma TrackedAdd(run: Run, w: World, root: State, log: seq<Path>, pushed: seq<State>, stack: seq<Path>, p: Path, s: State)
    requires Tracked(run, w, root, log, pushed, stack) && FlowPath(run, w, log, root, p) && StepFrom(run, w, log, p, s)
    requires s !in Items(pushed) && Good(w, s) && HasNoLasso(w, s) && s in AllStates(w)
    ensures Tracked(run, w, root, log, pushed + [s], stack + [p + [s]])
  {
    ItemsAppend(pushed, [s]);
    assert Items([s]) == {s};
    NoDupSnoc(pushed, s);
    LastsSnoc(stack, p + [s]);
    FlowPathSnoc(run, w, log, root, p, s);
    AllFlowSnoc(run, w, log, root, stack, p + [s]);
  }

  lemma FollowedMono(run: Run, w: World, log: seq<Path>, pushed: set<State>, more: set<State>, n: nat, upto: nat)
    requires n < |log| && Followed(run, w, log, pushed, n, upto) && pushed <= more
    ensures Followed(run, w, log, more, n, upto)
  {
  }

  // A step that is a mismatch or a lasso or was pushed before is skipped, any
  // other is pushed.
  lemma AddStep(run: Run, w: World, root: State, log: seq<Path>, pushed: seq<State>, stack: seq<Path>, j: nat, p: Path, s: State)
    requires Expanding(run, w, root, log, pushed, stack, j)
    requires p == log[|log| - 1] && p != [] && Expands(run, p) && Good(w, Last(p)) && j < |run.moves(|log| - 1)|
    requires StepIn(w, run.moves(|log| - 1)[j]) && s == Target(Last(p), run.moves(|log| - 1)[j])
    ensures if Mismatch(p, run.moves(|log| - 1)[j].tuple) || s in Items(pushed) || !HasNoLasso(w, s)
            then Expanding(run, w, root, log, pushed, stack, j + 1)
            else Expanding(run, w, root, log, pushed + [s], stack + [p + [s]], j + 1) && s in AllStates(w)
  {
    var n := |log| - 1;
    assert Followed(run, w, log, Items(pushed) + {s}, n, j + 1) by {
      FollowedMono(run, w, log, Items(pushed), Items(pushed) + {s}, n, j);
    }
    if Mismatch(p, run.moves(n)[j].tuple) || s in Items(pushed) || !HasNoLasso(w, s) {
      assert Followed(run, w, log, Items(pushed), n, j + 1);
    } else {
      GoodIsOne(w, Last(p), run.moves(n)[j]);
      assert FoundAt(run, w, log, n, p, s);
      TrackedAdd(run, w, root, log, pushed, stack, p, s);
      ItemsAppend(pushed, [s]);
      assert Items([s]) == {s};
      forall m | 0 <= m < n ensures Followed(run, w, log, Items(pushed + [s]), m, |run.moves(m)|) {
        FollowedMono(run, w, log, Items(pushed), Items(pushed + [s]), m, |run.moves(m)|);
      }
    }
  }

  lemma VisitDone(run: Run, w: World, root: State, log: seq<Path>, pushed: seq<State>, stack: seq<Path>, j: nat)
    requires Expanding(run, w, root, log, pushed, stack, j)
    requires var p := log[|log| - 1]; p != [] && (!Expands(run, p) || j == |run.moves(|log| - 1)|)
    ensures Searching(run, w, root, log, pushed, stack)
  {
    forall n | 0 <= n < |log| ensures Followed(run, w, log, Items(pushed), n, |run.moves(n)|) {
      if n == |log| - 1 {
        assert Followed(run, w, log, Items(pushed), n, j);
      }
    }
  }

  // ------------------------------------------------------------ calls and returns along a path

  // p follows the moves ms one by one.
  ghost predicate Follows(p: Path, ms: seq<Move>) {
    |p| == |ms| + 1 && forall i :: 0 <= i < |ms| ==> p[i + 1] == Target(p[i], ms[i])
  }

  // Along p, moves that enter calls and leave them all lead back to the traces
  // from before.
  ghost predicate CallsMatch(p: Path, ms: seq<Move>) {
    && (forall i, j :: 0 <= i <= j <= |ms| && j < |p| && Balanced(OnTraces(ms[i..j])) ==> p[j].trace == p[i].trace)
    && (forall i, j :: 0 <= i <= j <= |ms| && j < |p| && Balanced(OnClosures(ms[i..j])) ==> p[j].closure == p[i].closure)
  }

  function OnTraces(ms: seq<Move>): seq<TraceMove> {
    seq(|ms|, i requires 0 <= i < |ms| => ms[i].onTrace)
  }

  function OnClosures(ms: seq<Move>): seq<TraceMove> {
    seq(|ms|, i requires 0 <= i < |ms| => ms[i].onClosure)
  }

  lemma {:induction false} FollowsTraces(p: Path, ms: seq<Move>, i: nat, j: nat)
    requires Follows(p, ms) && i <= j <= |ms|
    ensures p[j].trace == MovedAll(p[i].trace, OnTraces(ms[i..j]))
    ensures p[j].closure == MovedAll(p[i].closure, OnClosures(ms[i..j]))
    decreases j
  {
    if i == j {
      assert ms[i..j] == [];
    } else {
      FollowsTraces(p, ms, i, j - 1);
      assert ms[i..j] == ms[i..j - 1] + [ms[j - 1]];
      MovedSnoc(p[i], ms[i..j - 1], ms[j - 1]);
      assert p[j] == Target(p[j - 1], ms[j - 1]);
    }
  }

  lemma MovedSnoc(s: State, ms: seq<Move>, m: Move)
    ensures MovedAll(s.trace, OnTraces(ms + [m])) == Moved(MovedAll(s.trace, OnTraces(ms)), m.onTrace)
    ensures MovedAll(s.closure, OnClosures(ms + [m])) == Moved(MovedAll(s.closure, OnClosures(ms)), m.onClosure)
  {
    assert OnTraces(ms + [m]) == OnTraces(ms) + [m.onTrace];
    MovedAllAppend(s.trace, OnTraces(ms), [m.onTrace]);
    MovedAllOne(MovedAll(s.trace, OnTraces(ms)), m.onTrace);
    assert OnClosures(ms + [m]) == OnClosures(ms) + [m.onClosure];
    MovedAllAppend(s.closure, OnClosures(ms), [m.onClosure]);
    MovedAllOne(MovedAll(s.closure, OnClosures(ms)), m.onClosure);
  }

  lemma FollowsMatches(p: Path, ms: seq<Move>)
    requires Follows(p, ms)
    ensures CallsMatch(p, ms)
  {
    forall i, j | 0 <= i <= j <= |ms| && Balanced(OnTraces(ms[i..j])) ensures p[j].trace == p[i].trace {
      FollowsTraces(p, ms, i, j);
      BalancedKeeps(p[i].trace, OnTraces(ms[i..j]));
    }
    forall i, j | 0 <= i <= j <= |ms| && Balanced(OnClosures(ms[i..j])) ensures p[j].closure == p[i].closure {
      FollowsTraces(p, ms, i, j);
      BalancedKeeps(p[i].closure, OnClosures(ms[i..j]));
    }
  }

  // The moves were found by visits of the nodes on p before them.
  ghost predicate MovesFound(run: Run, log: seq<Path>, p: Path, ms: seq<Move>) {
    forall i :: 0 <= i < |ms| && i < |p| ==> MoveFound(run, log, p[..i + 1], ms[i])
  }

  ghost predicate MoveFound(run: Run, log: seq<Path>, q: Path, m: Move) {
    exists n :: 0 <= n < |log| && log[n] == q && m in run.moves(n)
  }

  lemma StepMove(run: Run, w: World, log: seq<Path>, q: Path, s: State) returns (m: Move)
    requires StepFrom(run, w, log, q, s)
    ensures q != [] && s == Target(q[|q| - 1], m) && MoveFound(run, log, q, m)
  {
    var n :| FoundAt(run, w, log, n, q, s);
    var k :| 0 <= k < |run.moves(n)| && s == Target(Last(q), run.moves(n)[k]) && !Mismatch(q, run.moves(n)[k].tuple);
    m := run.moves(n)[k];
    assert m in run.moves(n);
  }

  lemma FlowPathPrefix(run: Run, w: World, log: seq<Path>, root: State, p: Path, n: nat)
    requires FlowPath(run, w, log, root, p) && 0 < n <= |p|
    ensures FlowPath(run, w, log, root, p[..n])
  {
    forall i | 0 < i < n ensures StepFrom(run, w, log, p[..n][..i], p[..n][i]) {
      assert p[..n][..i] == p[..i];
      assert StepFrom(run, w, log, p[..i], p[i]);
    }
  }

  lemma FollowsSnoc(q: Path, ms: seq<Move>, m: Move)
    requires Follows(q, ms) && q != []
    ensures Follows(q + [Target(q[|q| - 1], m)], ms + [m])
  {
  }

  lemma FoundSnoc(run: Run, log: seq<Path>, q: Path, ms: seq<Move>, s: State, m: Move)
    requires MovesFound(run, log, q, ms) && |q| == |ms| + 1 && MoveFound(run, log, q, m)
    ensures MovesFound(run, log, q + [s], ms + [m])
  {
    var p, ns := q + [s], ms + [m];
    forall i | 0 <= i < |ns| ensures MoveFound(run, log, p[..i + 1], ns[i]) {
      assert p[..i + 1] == q[..i + 1];
      if i < |ms| {
        assert MoveFound(run, log, q[..i + 1], ms[i]);
      } else {
        assert q[..i + 1] == q;
      }
    }
  }

  lemma {:induction false} FlowFollows(run: Run, w: World, log: seq<Path>, root: State, p: Path) returns (ms: seq<Move>)
    requires FlowPath(run, w, log, root, p)
    ensures Follows(p, ms) && MovesFound(run, log, p, ms)
    decreases |p|
  {
    var n := |p| - 1;
    if n == 0 {
      ms := [];
    } else {
      var q := p[..n];
      FlowPathPrefix(run, w, log, root, p, n);
      var before := FlowFollows(run, w, log, root, q);
      assert StepFrom(run, w, log, p[..n], p[n]);
      var m := StepMove(run, w, log, q, p[n]);
      FollowsSnoc(q, before, m);
      FoundSnoc(run, log, q, before, p[n], m);
      assert p == q + [p[n]];
      ms := before + [m];
    }
  }

  // p follows moves that visits found, and calls match along it.
  ghost predicate MatchedPath(run: Run, log: seq<Path>, p: Path) {
    exists ms :: Follows(p, ms) && MovesFound(run, log, p, ms) && CallsMatch(p, ms)
  }

  // Every path the search has visited is such a path.
  lemma VisitedMatches(run: Run, w: World, root: State, log: seq<Path>, pushed: seq<State>, stack: seq<Path>)
    requires Tracked(run, w, root, log, pushed, stack)
    ensures forall n :: 0 <= n < |log| ==> MatchedPath(run, log, log[n])
  {
    forall n | 0 <= n < |log| ensures MatchedPath(run, log, log[n]) {
      assert FlowPath(run, w, log, root, log[n]);
      var ms := FlowFollows(run, w, log, root, log[n]);
      FollowsMatches(log[n], ms);
    }
  }

  // ------------------------------------------------------------ what a finished search has visited

  ghost predicate Offers(found: seq<Move>, p: Path, moves: set<Move>) {
    forall m :: m in moves <==> m in found && !Mismatch(p, m.tuple)
  }

  // The steps that a visit finds and that are no mismatch are a function of the
  // state visited.
  ghost predicate Uniform(run: Run, log: seq<Path>, f: State -> set<Move>) {
    run.maxDepth <= 0 && forall n :: 0 <= n < |log| && log[n] != [] ==> Offers(run.moves(n), log[n], f(Last(log[n])))
  }

  // One step of the flow that makes no lasso.
  ghost predicate Steps(run: Run, w: World, f: State -> set<Move>, s: State, t: State) {
    !run.base(s.node) && HasNoLasso(w, t) && exists m :: m in f(s) && t == Target(s, m)
  }

  ghost predicate StatePath(run: Run, w: World, f: State -> set<Move>, root: State, p: Path) {
    p != [] && p[0] == root && forall i, j :: 0 <= i && j == i + 1 && j < |p| ==> Steps(run, w, f, p[i], p[j])
  }

  lemma {:induction false} ReachableIsVisited(run: Run, w: World, f: State -> set<Move>, root: State, log: seq<Path>, pushed: seq<State>, p: Path)
    requires Searching(run, w, root, log, pushed, []) && Uniform(run, log, f) && StatePath(run, w, f, root, p)
    ensures Last(p) in Lasts(log)
    decreases |p|
  {
    assert Lasts([]) == {};
    if |p| > 1 {
      var q := p[..|p| - 1];
      ReachableIsVisited(run, w, f, root, log, pushed, q);
      var n :| 0 <= n < |log| && log[n] != [] && Last(log[n]) == Last(q);
      assert Steps(run, w, f, p[|p| - 2], p[|p| - 1]);
      assert Followed(run, w, log, Items(pushed), n, |run.moves(n)|);
    }
  }

  lemma VisitedIsReachable(run: Run, w: World, f: State -> set<Move>, root: State, log: seq<Path>, p: Path)
    requires Uniform(run, log, f) && FlowPath(run, w, log, root, p)
    ensures StatePath(run, w, f, root, p)
  {
    forall i, j | 0 <= i && j == i + 1 && j < |p| ensures Steps(run, w, f, p[i], p[j]) {
      var n :| FoundAt(run, w, log, n, p[..j], p[j]);
      assert Last(p[..j]) == p[i];
    }
  }

  // A search without depth limit visits exactly the states that the entrypoint
  // reaches by steps that make no lasso.
  lemma VisitsExactly(run: Run, w: World, f: State -> set<Move>, root: State, log: seq<Path>, pushed: seq<State>, s: State)
    requires Searching(run, w, root, log, pushed, []) && Uniform(run, log, f)
    ensures s in Lasts(log) <==> exists p :: StatePath(run, w, f, root, p) && Last(p) == s
  {
    if s in Lasts(log) {
      var n :| 0 <= n < |log| && log[n] != [] && Last(log[n]) == s;
      assert FlowPath(run, w, log, root, log[n]);
      VisitedIsReachable(run, w, f, root, log, log[n]);
    }
    forall p | StatePath(run, w, f, root, p) && Last(p) == s ensures s in Lasts(log) {
      ReachableIsVisited(run, w, f, root, log, pushed, p);
    }
  }
}
