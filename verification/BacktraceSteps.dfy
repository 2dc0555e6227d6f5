// The states of the backwards search: a graph node with a call trace and a
// closure trace, the moves between them, and the keys that tell them apart.
module BacktraceSteps {
  import opened DistinctSeqs
  import opened Decimal
  import opened NodeTraces

  datatype State = State(node: CallNode, trace: seq<CallNode>, closure: seq<CallNode>, kind: nat)

  // What a step does to a trace.
  datatype TraceMove = Keep | Extend(added: CallNode) | Pop | Drop

  // A node that returns the value at a tuple index is reached over an edge with
  // an index; infos are the arguments that an edge has been recorded for.
  datatype Tuple = NoTuple | Return(index: int, edgeIndex: int, infos: set<CallNode>)

  datatype Move = Move(node: CallNode, onTrace: TraceMove, onClosure: TraceMove, kind: nat, tuple: Tuple)

  function Moved(t: seq<CallNode>, m: TraceMove): seq<CallNode> {
    match m
    case Keep => t
    case Extend(x) => t + [x]
    case Pop => if t == [] then [] else t[..|t| - 1]
    case Drop => []
  }

  function Target(s: State, m: Move): State {
    State(m.node, Moved(s.trace, m.onTrace), Moved(s.closure, m.onClosure), m.kind)
  }

  // What each kind of step does to a trace.  Leaving a call that was entered
  // gives back the trace from before.
  lemma MovedBy(t: seq<CallNode>, x: CallNode)
    ensures Moved(t, Keep) == t && Moved(t, Drop) == [] && Moved([], Pop) == []
    ensures Moved(t, Extend(x)) == t + [x]
    ensures Moved(Moved(t, Extend(x)), Pop) == t
  {
  }

  // A step has its own node and kind, and changes the two traces separately.
  lemma TargetIs(s: State, m: Move, x: CallNode)
    ensures Target(s, m).node == m.node && Target(s, m).kind == m.kind
    ensures m.onTrace == Keep ==> Target(s, m).trace == s.trace
    ensures m.onTrace == Extend(x) ==> Target(s, m).trace == s.trace + [x]
    ensures m.onTrace == Pop && s.trace != [] ==> Target(s, m).trace == s.trace[..|s.trace| - 1]
    ensures m.onTrace == Drop ==> Target(s, m).trace == []
    ensures m.onClosure == Keep ==> Target(s, m).closure == s.closure
    ensures m.onClosure == Extend(x) ==> Target(s, m).closure == s.closure + [x]
    ensures m.onClosure == Pop && s.closure != [] ==> Target(s, m).closure == s.closure[..|s.closure| - 1]
    ensures m.onClosure == Drop ==> Target(s, m).closure == []
  {
  }

  // ------------------------------------------------------------ calls and returns

  function MovedAll(t: seq<CallNode>, ms: seq<TraceMove>): seq<CallNode> {
    if ms == [] then t else Moved(MovedAll(t, ms[..|ms| - 1]), ms[|ms| - 1])
  }

  // Every call that is entered is left again, and no other.
  ghost predicate Balanced(ms: seq<TraceMove>)
    decreases |ms|
  {
    || ms == []
    || (ms[0] == Keep && Balanced(ms[1..]))
    || (ms[0].Extend? && exists k :: 0 < k < |ms| && ms[k] == Pop && Balanced(ms[1..k]) && Balanced(ms[k + 1..]))
  }

  lemma {:induction false} MovedAllAppend(t: seq<CallNode>, a: seq<TraceMove>, b: seq<TraceMove>)
    ensures MovedAll(t, a + b) == MovedAll(MovedAll(t, a), b)
    decreases |b|
  {
    if b == [] {
      assert a + b == a;
    } else {
      assert (a + b)[..|a + b| - 1] == a + b[..|b| - 1];
      MovedAllAppend(t, a, b[..|b| - 1]);
    }
  }

  lemma MovedAllOne(t: seq<CallNode>, m: TraceMove)
    ensures MovedAll(t, [m]) == Moved(t, m)
  {
    assert MovedAll(t, []) == t;
  }

  // Entering calls and leaving all of them gives back the trace from before.
  lemma {:induction false} BalancedKeeps(t: seq<CallNode>, ms: seq<TraceMove>)
    requires Balanced(ms)
    ensures MovedAll(t, ms) == t
    decreases |ms|
  {
    if ms == [] {
    } else if ms[0] == Keep && Balanced(ms[1..]) {
      assert ms == [ms[0]] + ms[1..];
      MovedAllAppend(t, [ms[0]], ms[1..]);
      MovedAllOne(t, ms[0]);
      BalancedKeeps(t, ms[1..]);
    } else {
      var k :| 0 < k < |ms| && ms[k] == Pop && Balanced(ms[1..k]) && Balanced(ms[k + 1..]);
      EnteredAndLeft(t, ms, k);
      BalancedKeeps(t + [ms[0].added], ms[1..k]);
      BalancedKeeps(t, ms[k + 1..]);
    }
  }

  lemma EnteredAndLeft(t: seq<CallNode>, ms: seq<TraceMove>, k: nat)
    requires 0 < k < |ms| && ms[0].Extend? && ms[k] == Pop
    ensures MovedAll(t, ms) == MovedAll(Moved(MovedAll(t + [ms[0].added], ms[1..k]), Pop), ms[k + 1..])
  {
    assert ms == ([ms[0]] + (ms[1..k] + [ms[k]])) + ms[k + 1..];
    MovedAllAppend(t, [ms[0]] + (ms[1..k] + [ms[k]]), ms[k + 1..]);
    MovedAllAppend(t, [ms[0]], ms[1..k] + [ms[k]]);
    MovedAllOne(t, ms[0]);
    MovedAllAppend(t + [ms[0].added], ms[1..k], [ms[k]]);
    MovedAllOne(MovedAll(t + [ms[0].added], ms[1..k]), ms[k]);
  }

  // ------------------------------------------------------------ keys

  // The access paths of a state that was stepped to are empty, so its key ends
  // with the dot.
  function KindKey(kind: nat): string {
    NatToString(kind) + "."
  }

  function ClosureKey(closure: seq<CallNode>, kind: nat): string {
    KeyOf(closure) + "_" + KindKey(kind)
  }

  function TraceKey(s: State): string {
    KeyOf(s.trace) + "!" + ClosureKey(s.closure, s.kind)
  }

  function Key(s: State): string {
    LongID(s.node) + "!" + TraceKey(s)
  }

  // Node, call trace, closure trace and kind are printed in this order.
  lemma KeyExample()
    ensures Key(State(CallNode(1, 2), [CallNode(3, 4)], [CallNode(7, 8)], 9)) == "#1.2!#3.4!#7.8_9."
  {
    assert LongID(CallNode(1, 2)) == "#1.2";
    assert KeyOf([CallNode(3, 4)]) == "#3.4";
    assert ClosureKey([CallNode(7, 8)], 9) == "#7.8_9.";
  }

  lemma KindKeyInjective(k: nat, l: nat)
    requires KindKey(k) == KindKey(l)
    ensures k == l
  {
    SplitFirst(NatToString(k), "", NatToString(l), "", '.');
    NatToStringInjective(k, l);
  }

  lemma ClosureKeyInjective(c: seq<CallNode>, k: nat, d: seq<CallNode>, l: nat)
    requires ClosureKey(c, k) == ClosureKey(d, l)
    ensures c == d && k == l
  {
    KeyChars(c);
    KeyChars(d);
    SplitFirst(KeyOf(c), KindKey(k), KeyOf(d), KindKey(l), '_');
    KeyInjective(c, d);
    KindKeyInjective(k, l);
  }

  lemma TraceKeyInjective(s: State, t: State)
    requires TraceKey(s) == TraceKey(t)
    ensures s.trace == t.trace && s.closure == t.closure && s.kind == t.kind
  {
    KeyChars(s.trace);
    KeyChars(t.trace);
    SplitFirst(KeyOf(s.trace), ClosureKey(s.closure, s.kind), KeyOf(t.trace), ClosureKey(t.closure, t.kind), '!');
    KeyInjective(s.trace, t.trace);
    ClosureKeyInjective(s.closure, s.kind, t.closure, t.kind);
  }

  // Different states have different keys.
  lemma StateKeyInjective(s: State, t: State)
    requires Key(s) == Key(t)
    ensures s == t
  {
    LongIDChars(s.node);
    LongIDChars(t.node);
    SplitFirst(LongID(s.node), TraceKey(s), LongID(t.node), TraceKey(t), '!');
    LongIDInjective(s.node, t.node);
    TraceKeyInjective(s, t);
  }

  // The keys of exactly the states that were pushed.
  ghost predicate KeysOfStates(keys: set<string>, pushed: seq<State>) {
    forall s :: Key(s) in keys <==> s in Items(pushed)
  }

  lemma KeysGrow(keys: set<string>, pushed: seq<State>, s: State)
    requires KeysOfStates(keys, pushed)
    ensures KeysOfStates(keys + {Key(s)}, pushed + [s])
  {
    ItemsAppend(pushed, [s]);
    assert Items([s]) == {s};
    forall t ensures Key(t) in keys + {Key(s)} <==> t in Items(pushed + [s]) {
      if Key(t) == Key(s) {
        StateKeyInjective(t, s);
      }
    }
  }

  // ------------------------------------------------------------ lassos

  // How nodes print, in call traces and in closure traces, and what may occur.
  datatype World = World(calls: CallNode -> string, closures: CallNode -> string,
                         nodes: set<CallNode>, labels: set<CallNode>, kinds: set<nat>)

  ghost predicate HasNoLasso(w: World, s: State) {
    !HasLasso(w.calls, s.trace) && !HasLasso(w.closures, s.closure)
  }

  ghost predicate MoveIn(w: World, m: TraceMove) {
    m.Extend? ==> m.added in w.labels
  }

  ghost predicate StepIn(w: World, m: Move) {
    m.node in w.nodes && m.kind in w.kinds && MoveIn(w, m.onTrace) && MoveIn(w, m.onClosure)
  }

  ghost predicate GoodTrace(w: World, t: seq<CallNode>) {
    NoDup(t) && Over(t, w.labels)
  }

  ghost predicate Good(w: World, s: State) {
    GoodTrace(w, s.trace) && GoodTrace(w, s.closure)
  }

  // The lasso check keeps traces free of repetition: a trace that grows is dropped
  // when its new label prints like an earlier one.
  lemma MovedIsGood(w: World, repr: CallNode -> string, t: seq<CallNode>, m: TraceMove)
    requires GoodTrace(w, t) && MoveIn(w, m) && !HasLasso(repr, Moved(t, m))
    ensures GoodTrace(w, Moved(t, m))
  {
    match m
    case Keep =>
    case Drop =>
    case Pop =>
      forall x | x in Moved(t, m) ensures x in t {
      }
    case Extend(x) =>
      var u := t + [x];
      forall i | 0 <= i < |t| ensures t[i] != x {
        assert u[i] == t[i] && u[|u| - 1] == x;
      }
      NoDupSnoc(t, x);
  }

  // ------------------------------------------------------------ finitely many states

  ghost function AllStates(w: World): set<State> {
    set n, t, c, k | n in w.nodes && t in Universe(w.labels) && c in Universe(w.labels) && k in w.kinds :: State(n, t, c, k)
  }

  lemma GoodIsOne(w: World, s: State, m: Move)
    requires Good(w, s) && StepIn(w, m) && HasNoLasso(w, Target(s, m))
    ensures Good(w, Target(s, m)) && Target(s, m) in AllStates(w)
  {
    var t := Target(s, m);
    MovedIsGood(w, w.calls, s.trace, m.onTrace);
    MovedIsGood(w, w.closures, s.closure, m.onClosure);
    InUniverse(t.trace, w.labels);
    InUniverse(t.closure, w.labels);
  }
}
