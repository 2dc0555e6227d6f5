// Load nodes and their history: why loading again and again through the same
// operations does not grow the escape graph without bound.
module LoadNodes {
  import opened Options
  import opened Paths
  import opened EscapeLattice
  import opened EscapeGraphs

  // Types and operations are identified by names and numbers.
  datatype GoType = GoType(name: string, isAbstract: bool)
  datatype LoadOp = LoadOp(id: nat) | AbstractTypeLoad(tp: string) | ParameterLoad(function_: nat, param: nat)
  datatype Reason = FieldReason(field: string) | ImplementationReason(tp: string)

  // Which node a subnode belongs to, and as what.
  datatype Attached = Attached(base: Node, reason: Reason)

  // parent is set on subnodes, loadBase on load nodes; both point to the node
  // the new one was made for.
  datatype Links = Links(parent: map<Node, Attached>, loadBase: map<Node, Node>)

  // Nodes are made after the node they hang on, so numbers decrease upwards.
  ghost predicate Ordered(h: Links) {
    && (forall n :: n in h.parent ==> h.parent[n].base.number < n.number)
    && (forall n :: n in h.loadBase ==> h.loadBase[n].number < n.number)
  }

  function Up(h: Links, n: Node): Option<Node> {
    if n in h.parent then Some(h.parent[n].base)
    else if n in h.loadBase then Some(h.loadBase[n])
    else None
  }

  // n, the node it hangs on, the node that one hangs on, and so on.
  ghost function History(h: Links, n: Node): (c: seq<Node>)
    requires Ordered(h)
    ensures c != [] && c[0] == n
    decreases n.number
  {
    match Up(h, n)
    case None => [n]
    case Some(m) => [n] + History(h, m)
  }

  ghost function HistoryFrom(h: Links, n: Option<Node>): seq<Node>
    requires Ordered(h)
  {
    if n == None then [] else History(h, n.value)
  }

  lemma HistoryStep(h: Links, done: seq<Node>, n: Node)
    requires Ordered(h)
    ensures done + History(h, n) == done + [n] + HistoryFrom(h, Up(h, n))
    ensures |HistoryFrom(h, Up(h, n))| < |History(h, n)|
  {
    assert History(h, n) == [n] + HistoryFrom(h, Up(h, n));
  }

  ghost predicate HasOp(ops: map<Node, set<LoadOp>>, n: Node, op: LoadOp) {
    n in ops && op in ops[n]
  }

  // The load nodes on the history of n, and all operations recorded on it.
  ghost function LoadsOn(h: Links, n: Node): set<Node>
    requires Ordered(h)
  {
    set l | l in History(h, n) && l in h.loadBase
  }

  ghost function OpsOn(h: Links, ops: map<Node, set<LoadOp>>, n: Node): set<LoadOp>
    requires Ordered(h)
  {
    set l, op | l in History(h, n) && l in ops && op in ops[l] :: op
  }

  // first gives every load node the operation it was made for.  No two load
  // nodes of one history were made for the same operation.
  ghost predicate Distinct(h: Links, ops: map<Node, set<LoadOp>>, first: map<Node, LoadOp>)
    requires Ordered(h)
  {
    && first.Keys == h.loadBase.Keys
    && (forall l :: l in first ==> HasOp(ops, l, first[l]))
    && (forall l, a :: l in h.loadBase && a in History(h, h.loadBase[l]) && a in first ==> first[a] != first[l])
  }

  // A new node changes no history but its own.
  lemma {:induction false} HistoryStays(h: Links, h': Links, made: Node, n: Node)
    requires Ordered(h) && Ordered(h') && n.number < made.number
    requires forall m :: m != made ==> Up(h', m) == Up(h, m)
    ensures History(h', n) == History(h, n)
    decreases n.number
  {
    match Up(h, n)
    case None =>
    case Some(m) => HistoryStays(h, h', made, m);
  }

  // The node l of a history, unless it is the first, is in the rest of it.
  lemma {:induction false} DistinctOnHistory(h: Links, ops: map<Node, set<LoadOp>>, first: map<Node, LoadOp>, n: Node, a: Node, b: Node)
    requires Ordered(h) && Distinct(h, ops, first)
    requires forall m :: m in h.loadBase ==> m !in h.parent
    requires a in LoadsOn(h, n) && b in LoadsOn(h, n) && a != b
    ensures first[a] != first[b]
    decreases n.number
  {
    var m := Up(h, n).value;
    assert History(h, n) == [n] + History(h, m);
    if a != n && b != n {
      DistinctOnHistory(h, ops, first, m, a, b);
    }
  }

  lemma {:induction false} InjectionBounds<A, B>(s: set<A>, t: set<B>, f: map<A, B>)
    requires s <= f.Keys && forall x :: x in s ==> f[x] in t
    requires forall x, y :: x in s && y in s && x != y ==> f[x] != f[y]
    ensures |s| <= |t|
  {
    if s != {} {
      var x :| x in s;
      InjectionBounds(s - {x}, t - {f[x]}, f);
    }
  }

  // No history has more load nodes than load operations.
  lemma LoadsBounded(h: Links, ops: map<Node, set<LoadOp>>, first: map<Node, LoadOp>, n: Node)
    requires Ordered(h) && Distinct(h, ops, first)
    requires forall m :: m in h.loadBase ==> m !in h.parent
    ensures |LoadsOn(h, n)| <= |OpsOn(h, ops, n)|
  {
    forall a, b | a in LoadsOn(h, n) && b in LoadsOn(h, n) && a != b ensures first[a] != first[b] {
      DistinctOnHistory(h, ops, first, n, a, b);
    }
    forall l | l in LoadsOn(h, n) ensures first[l] in OpsOn(h, ops, n) {
      assert HasOp(ops, l, first[l]);
    }
    InjectionBounds(LoadsOn(h, n), OpsOn(h, ops, n), first);
  }

  lemma WithEdgeTwice(g: EscGraph, a: Node, b: Node, f: Flags)
    requires Good(g) && f != {}
    ensures var w := WithEdge(g, a, b, f); Good(w) && WithEdge(w, a, b, f) == w
  {
    WithEdgeIsLeast(g, a, b, f);
    var w := WithEdge(g, a, b, f);
    WithEdgeIsLeast(w, a, b, f);
    Antisymmetric(w, WithEdge(w, a, b, f));
  }

  // The part of a node group that histories are made of.  first is not in the
  // source: it remembers what each load node was made for.
  datatype Group = Group(nextNode: nat, subnodes: map<Attached, Node>, links: Links,
                         loadOps: map<Node, set<LoadOp>>, loadChild: map<Node, Node>, first: map<Node, LoadOp>)

  ghost predicate ValidGroup(s: Group) {
    Ordered(s.links) && Placed(s) && Distinct(s.links, s.loadOps, s.first)
  }

  // The maps fit together.
  ghost predicate Placed(s: Group) {
    && (forall n :: n in s.links.parent || n in s.links.loadBase || n in s.loadOps ==> n.number < s.nextNode)
    && (forall n :: n in s.links.loadBase ==> n !in s.links.parent && n.kind == KindLoad)
    && (forall n :: n in s.links.parent ==> n.kind == s.links.parent[n].base.kind)
    && (forall k :: k in s.subnodes ==> s.subnodes[k] in s.links.parent && s.links.parent[s.subnodes[k]] == k)
    && (forall b :: b in s.loadChild ==> s.loadChild[b] in s.links.loadBase && s.links.loadBase[s.loadChild[b]] == b)
    && (forall n :: n in s.links.parent ==> s.links.parent[n] in s.subnodes && s.subnodes[s.links.parent[n]] == n)
    && (forall n :: n in s.links.loadBase ==> s.links.loadBase[n] in s.loadChild && s.loadChild[s.links.loadBase[n]] == n)
  }

  // The bound holds in every valid group, and so after any operations.
  lemma HistoryBounded(s: Group, n: Node)
    requires ValidGroup(s)
    ensures |LoadsOn(s.links, n)| <= |OpsOn(s.links, s.loadOps, n)|
  {
    LoadsBounded(s.links, s.loadOps, s.first, n);
  }

  function WithSubnode(s: Group, base: Node, reason: Reason): Group {
    var f := Node(base.kind, s.nextNode);
    s.(nextNode := s.nextNode + 1, subnodes := s.subnodes[Attached(base, reason) := f],
       links := s.links.(parent := s.links.parent[f := Attached(base, reason)]))
  }

  function WithLoadNode(s: Group, base: Node, op: LoadOp): Group {
    var l := Node(KindLoad, s.nextNode);
    s.(nextNode := s.nextNode + 1, loadChild := s.loadChild[base := l],
       links := s.links.(loadBase := s.links.loadBase[l := base]),
       loadOps := s.loadOps[l := {op}], first := s.first[l := op])
  }

  function WithOp(s: Group, l: Node, op: LoadOp): Group {
    s.(loadOps := s.loadOps[l := (if l in s.loadOps then s.loadOps[l] else {}) + {op}])
  }

  lemma HistoriesStay(h: Links, h': Links, made: Node, base: map<Node, Node>)
    requires Ordered(h) && Ordered(h')
    requires forall m :: m != made ==> Up(h', m) == Up(h, m)
    requires forall l :: l in base ==> base[l].number < made.number
    ensures forall l :: l in base ==> History(h', base[l]) == History(h, base[l])
  {
    forall l | l in base ensures History(h', base[l]) == History(h, base[l]) {
      HistoryStays(h, h', made, base[l]);
    }
  }

  lemma WithSubnodeIsPlaced(s: Group, base: Node, reason: Reason)
    requires Placed(s) && base.number < s.nextNode && Attached(base, reason) !in s.subnodes
    ensures Placed(WithSubnode(s, base, reason))
  {
  }

  lemma SameHistoriesDistinct(h: Links, h': Links, ops: map<Node, set<LoadOp>>, first: map<Node, LoadOp>)
    requires Ordered(h) && Ordered(h') && Distinct(h, ops, first) && h'.loadBase == h.loadBase
    requires forall l :: l in h.loadBase ==> History(h', h.loadBase[l]) == History(h, h.loadBase[l])
    ensures Distinct(h', ops, first)
  {
  }

  lemma WithSubnodeIsValid(s: Group, base: Node, reason: Reason)
    requires ValidGroup(s) && base.number < s.nextNode && Attached(base, reason) !in s.subnodes
    ensures ValidGroup(WithSubnode(s, base, reason))
  {
    var s' := WithSubnode(s, base, reason);
    assert Ordered(s'.links);
    WithSubnodeIsPlaced(s, base, reason);
    HistoriesStay(s.links, s'.links, Node(base.kind, s.nextNode), s.links.loadBase);
    SameHistoriesDistinct(s.links, s'.links, s.loadOps, s.first);
  }

  // A load node made for an operation its history does not have keeps the
  // operations of every history distinct.
  lemma NewLoadIsDistinct(h: Links, h': Links, ops: map<Node, set<LoadOp>>, first: map<Node, LoadOp>, base: Node, l: Node, op: LoadOp)
    requires Ordered(h) && Ordered(h') && Distinct(h, ops, first)
    requires base.number < l.number && h' == h.(loadBase := h.loadBase[l := base])
    requires l !in h.parent && forall n :: n in h.loadBase ==> n.number < l.number
    requires forall n :: n in History(h, base) ==> !HasOp(ops, n, op)
    ensures Distinct(h', ops[l := {op}], first[l := op])
  {
    var first' := first[l := op];
    FirstsRecorded(h, ops, first, first', l, op);
    UpStays(h, h', l, base);
    assert forall m :: m in h'.loadBase ==> h'.loadBase[m].number < l.number;
    forall m, a | m in h'.loadBase && a in History(h', h'.loadBase[m]) && a in first' ensures first'[a] != first'[m] {
      HistoryStays(h, h', l, h'.loadBase[m]);
      NewLoadApart(h, ops, first, base, l, op, m, a);
    }
  }

  lemma UpStays(h: Links, h': Links, l: Node, base: Node)
    requires h' == h.(loadBase := h.loadBase[l := base])
    ensures forall n :: n != l ==> Up(h', n) == Up(h, n)
  {
  }

  lemma FirstsRecorded(h: Links, ops: map<Node, set<LoadOp>>, first: map<Node, LoadOp>, first': map<Node, LoadOp>, l: Node, op: LoadOp)
    requires Ordered(h) && Distinct(h, ops, first) && l !in first && first' == first[l := op]
    ensures first'.Keys == h.loadBase.Keys + {l}
    ensures forall a :: a in first' ==> HasOp(ops[l := {op}], a, first'[a])
  {
    forall a | a in first ensures HasOp(ops[l := {op}], a, first[a]) {
      assert HasOp(ops, a, first[a]);
    }
  }

  // The operation of m, new or old, is not that of an earlier load.
  lemma NewLoadApart(h: Links, ops: map<Node, set<LoadOp>>, first: map<Node, LoadOp>, base: Node, l: Node, op: LoadOp, m: Node, a: Node)
    requires Ordered(h) && Distinct(h, ops, first) && base.number < l.number
    requires forall n :: n in h.loadBase ==> n.number < l.number
    requires forall n :: n in History(h, base) ==> !HasOp(ops, n, op)
    requires m == l || m in h.loadBase
    requires a in History(h, if m == l then base else h.loadBase[m]) && (a in first || a == l)
    ensures a != l && a in first && first[a] != if m == l then op else first[m]
  {
    HistoryNumbers(h, if m == l then base else h.loadBase[m]);
    assert HasOp(ops, a, first[a]);
  }

  lemma WithLoadNodeIsPlaced(s: Group, base: Node, op: LoadOp)
    requires Placed(s) && base.number < s.nextNode && base !in s.loadChild
    ensures Placed(WithLoadNode(s, base, op))
  {
  }

  lemma WithLoadNodeIsValid(s: Group, base: Node, op: LoadOp)
    requires ValidGroup(s) && base.number < s.nextNode && base !in s.loadChild
    requires forall n :: n in History(s.links, base) ==> !HasOp(s.loadOps, n, op)
    ensures ValidGroup(WithLoadNode(s, base, op))
  {
    var l := Node(KindLoad, s.nextNode);
    var h' := s.links.(loadBase := s.links.loadBase[l := base]);
    assert Ordered(h');
    WithLoadNodeIsPlaced(s, base, op);
    NewLoadIsDistinct(s.links, h', s.loadOps, s.first, base, l, op);
  }

  lemma {:induction false} HistoryNumbers(h: Links, n: Node)
    requires Ordered(h)
    ensures forall a :: a in History(h, n) ==> a.number <= n.number
    decreases n.number
  {
    match Up(h, n)
    case None =>
    case Some(m) => HistoryNumbers(h, m);
  }

  lemma WithOpIsValid(s: Group, l: Node, op: LoadOp)
    requires ValidGroup(s) && l in s.loadOps
    ensures ValidGroup(WithOp(s, l, op))
  {
    var s' := WithOp(s, l, op);
    forall a | a in s'.first ensures HasOp(s'.loadOps, a, s'.first[a]) {
      assert HasOp(s.loadOps, a, s.first[a]);
    }
  }

  ghost predicate HistoryHas(s: Group, base: Node, op: LoadOp)
    requires ValidGroup(s)
  {
    exists n :: n in History(s.links, base) && HasOp(s.loadOps, n, op)
  }

  lemma FoundOnHistory(s: Group, base: Node, op: LoadOp, found: Option<Node>)
    requires ValidGroup(s) && LastWithOp(s.loadOps, History(s.links, base), op, found)
    ensures found.Some? <==> HistoryHas(s, base, op)
    ensures found.Some? ==> Linked(s, s, base, op, found.value)
  {
    if found.Some? {
      var i: nat :| IsLastWithOp(s.loadOps, History(s.links, base), op, found.value, i);
    }
  }

  // What EnsureLoadNode does to the group: nothing if the history has the
  // operation; otherwise the load child is made if need be and gets it.
  ghost predicate Ensured(s: Group, s': Group, base: Node, op: LoadOp, node: Node)
    requires ValidGroup(s)
  {
    if HistoryHas(s, base, op) then
      s' == s && node in History(s.links, base) && HasOp(s.loadOps, node, op)
    else if base in s.loadChild then
      node == s.loadChild[base] && s' == WithOp(s, node, op)
    else
      node == Node(KindLoad, s.nextNode) && s' == WithLoadNode(s, base, op)
  }

  // A subnode is found again or made.
  ghost predicate Subnoded(s: Group, s': Group, base: Node, reason: Reason, f: Node) {
    if Attached(base, reason) in s.subnodes then f == s.subnodes[Attached(base, reason)] && s' == s
    else f == Node(base.kind, s.nextNode) && s' == WithSubnode(s, base, reason)
  }

  ghost predicate NestedImplementation(s: Group, base: Node, reason: Reason) {
    reason.ImplementationReason? && base in s.links.parent && s.links.parent[base].reason.ImplementationReason?
  }

  function WithBareLoadNode(s: Group, base: Node, op: LoadOp): Group {
    var l := Node(KindLoad, s.nextNode);
    WithLoadNode(s, base, op).(loadOps := s.loadOps[l := {}])
  }

  // The node has the operation, and no other node gains one; it is on the history
  // of base or loaded from it; nothing else becomes linked.
  ghost predicate Loaded(s: Group, s': Group, base: Node, op: LoadOp, node: Node)
    requires Ordered(s.links)
  {
    && (forall n, o :: HasOp(s'.loadOps, n, o) <==> HasOp(s.loadOps, n, o) || (n == node && o == op))
    && (node in History(s.links, base) || (node in s'.links.loadBase && s'.links.loadBase[node] == base))
    && s'.links.parent == s.links.parent
    && (forall n :: n in s.links.loadBase ==> n in s'.links.loadBase && s'.links.loadBase[n] == s.links.loadBase[n])
    && (forall n :: n in s'.links.loadBase ==> n in s.links.loadBase || n == Node(KindLoad, s.nextNode))
  }

  lemma EnsuredIsLoaded(s: Group, s': Group, base: Node, op: LoadOp, node: Node)
    requires ValidGroup(s) && Ensured(s, s', base, op, node)
    ensures Loaded(s, s', base, op, node)
  {
    if HistoryHas(s, base, op) {
    } else if base in s.loadChild {
      WithOpOps(s.loadOps, s'.loadOps, node, op);
    } else {
      assert node !in s.loadOps;
      NewOps(s.loadOps, s'.loadOps, node, op);
    }
  }

  lemma WithOpOps(ops: map<Node, set<LoadOp>>, ops': map<Node, set<LoadOp>>, l: Node, op: LoadOp)
    requires ops' == ops[l := (if l in ops then ops[l] else {}) + {op}]
    ensures forall n, o :: HasOp(ops', n, o) <==> HasOp(ops, n, o) || (n == l && o == op)
  {
  }

  lemma NewOps(ops: map<Node, set<LoadOp>>, ops': map<Node, set<LoadOp>>, l: Node, op: LoadOp)
    requires l !in ops && ops' == ops[l := {op}]
    ensures forall n, o :: HasOp(ops', n, o) <==> HasOp(ops, n, o) || (n == l && o == op)
  {
  }

  // The links of a node upwards: from a subnode to its parent, and from a load
  // node to what it was loaded from.
  ghost function LinkGraph(h: Links): Graph<Node> {
    map n | n in h.parent.Keys + h.loadBase.Keys ::
      (if n in h.parent then {h.parent[n].base} else {}) + (if n in h.loadBase then {h.loadBase[n]} else {})
  }

  // The history of a node is what its links lead to.
  lemma {:induction false} HistoryIsReach(h: Links, n: Node, m: Node)
    requires Ordered(h) && h.parent.Keys !! h.loadBase.Keys
    ensures m in History(h, n) <==> Reach(LinkGraph(h), n, m)
    decreases n.number
  {
    var g := LinkGraph(h);
    ReachRefl(g, n);
    match Up(h, n)
    case None =>
      if Reach(g, n, m) {
        ReachStays(g, {n}, n, m);
      }
    case Some(u) =>
      HistoryIsReach(h, u, m);
      assert Succ(g, n) == {u};
      assert m in History(h, n) <==> m == n || m in History(h, u);
      if Reach(g, u, m) {
        ReachCons(g, n, u, m);
      }
      if Reach(g, n, m) && m != n {
        ReachFirst(g, n, m);
      }
  }

  lemma ReachFirst(g: Graph<Node>, a: Node, b: Node)
    requires Reach(g, a, b) && a != b
    ensures exists c :: c in Succ(g, a) && Reach(g, c, b)
  {
    var p :| Joins(g, p, a, b);
    assert p[1] in Succ(g, p[0]);
    assert Joins(g, p[1..], p[1], b);
  }

  lemma WithOpCompletes(s: Group, base: Node, op: LoadOp)
    ensures WithOp(WithBareLoadNode(s, base, op), Node(KindLoad, s.nextNode), op) == WithLoadNode(s, base, op)
  {
    var l := Node(KindLoad, s.nextNode);
    assert {} + {op} == {op};
    assert s.loadOps[l := {}][l := {op}] == s.loadOps[l := {op}];
  }

  ghost predicate Linked(s: Group, s': Group, base: Node, op: LoadOp, node: Node) {
    ValidGroup(s) && ValidGroup(s') && Ensured(s, s', base, op, node)
  }

  // The load child of base, or the one that would be made for it.
  function LoadChildOf(s: Group, base: Node): Node {
    if base in s.loadChild then s.loadChild[base] else Node(KindLoad, s.nextNode)
  }

  // The group once the load child of base is there.
  function WithLoadChild(s: Group, base: Node, op: LoadOp): Group {
    if base in s.loadChild then s else WithBareLoadNode(s, base, op)
  }

  lemma FoundHasOps(s: Group, base: Node)
    requires ValidGroup(s) && base in s.loadChild
    ensures s.loadChild[base] in s.loadOps
  {
    assert HasOp(s.loadOps, s.loadChild[base], s.first[s.loadChild[base]]);
  }

  // With the operation recorded the load node is what had to be ensured.
  lemma RecordedIsEnsured(s: Group, base: Node, op: LoadOp)
    requires ValidGroup(s) && base.number < s.nextNode && !HistoryHas(s, base, op)
    ensures Linked(s, WithOp(WithLoadChild(s, base, op), LoadChildOf(s, base), op), base, op, LoadChildOf(s, base))
  {
    var l := LoadChildOf(s, base);
    if base in s.loadChild {
      FoundHasOps(s, base);
      WithOpIsValid(s, l, op);
    } else {
      WithLoadNodeIsValid(s, base, op);
      WithOpCompletes(s, base, op);
    }
  }

  // found is the last node of c that has the operation.
  ghost predicate LastWithOp(ops: map<Node, set<LoadOp>>, c: seq<Node>, op: LoadOp, found: Option<Node>) {
    && (found == None <==> forall n :: n in c ==> !HasOp(ops, n, op))
    && (found.Some? ==> exists i :: IsLastWithOp(ops, c, op, found.value, i))
  }

  ghost predicate IsLastWithOp(ops: map<Node, set<LoadOp>>, c: seq<Node>, op: LoadOp, n: Node, i: nat) {
    i < |c| && c[i] == n && HasOp(ops, n, op) && forall j :: i < j < |c| ==> !HasOp(ops, c[j], op)
  }

  lemma LastWithOpStep(ops: map<Node, set<LoadOp>>, c: seq<Node>, n: Node, op: LoadOp, found: Option<Node>)
    requires LastWithOp(ops, c, op, found)
    ensures LastWithOp(ops, c + [n], op, if HasOp(ops, n, op) then Some(n) else found)
  {
    if HasOp(ops, n, op) {
      assert n in c + [n] && IsLastWithOp(ops, c + [n], op, n, |c|);
    } else if found.Some? {
      var i: nat :| IsLastWithOp(ops, c, op, found.value, i);
      assert found.value in c + [n] && IsLastWithOp(ops, c + [n], op, found.value, i);
    }
  }

  class NodeGroup {
    var nextNode: nat
    var subnodes: map<Attached, Node>
    var parent: map<Node, Attached>
    var loadOps: map<Node, set<LoadOp>>
    var loadBase: map<Node, Node>
    var loadChild: map<Node, Node>
    ghost var first: map<Node, LoadOp>

    constructor ()
      ensures ValidGroup(S()) && S() == Group(0, map[], Links(map[], map[]), map[], map[], map[])
    {
      nextNode, subnodes, parent := 0, map[], map[];
      loadOps, loadBase, loadChild, first := map[], map[], map[], map[];
    }

    ghost function S(): Group
      reads this
    {
      Group(nextNode, subnodes, Links(parent, loadBase), loadOps, loadChild, first)
    }

    // Records the pseudo-load operation of the pointee of a parameter.
    method AddParamOp(paramNode: Node, op: LoadOp)
      requires ValidGroup(S()) && paramNode.number < nextNode && paramNode !in loadBase
      modifies this`loadOps
      ensures ValidGroup(S()) && S() == old(S()).(loadOps := old(loadOps)[paramNode := {op}])
    {
      ghost var s := S();
      loadOps := loadOps[paramNode := {op}];
      forall a | a in first ensures HasOp(loadOps, a, first[a]) {
        assert HasOp(s.loadOps, a, s.first[a]);
      }
    }

    method NewNode(kind: NodeKind) returns (n: Node)
      modifies this`nextNode
      ensures n == Node(kind, old(nextNode)) && S() == old(S()).(nextNode := old(nextNode) + 1)
    {
      n := Node(kind, nextNode);
      nextNode := nextNode + 1;
    }

    // The subnode of base for a reason: one per reason, made on first use and
    // linked to base in g.  An implementation has no implementations of its own;
    // asking for one is the source's panic (None).
    method SubnodeOf(g: EscapeGraph, base: Node, reason: Reason) returns (f: Option<Node>)
      requires ValidGroup(S()) && g.Valid() && Good(g.Value()) && base.number < nextNode
      modifies this, g, g.rows
      ensures ValidGroup(S()) && g.Valid() && (forall r :: r in g.rows ==> r in old(g.rows) || fresh(r)) && Good(g.Value())
      ensures f == None <==> NestedImplementation(old(S()), base, reason)
      ensures f == None ==> S() == old(S()) && g.Value() == old(g.Value())
      ensures f.Some? ==> f.value in parent && parent[f.value] == Attached(base, reason) && f.value.kind == base.kind
      ensures f.Some? ==> Subnoded(old(S()), S(), base, reason, f.value)
                          && g.Value() == WithEdge(old(g.Value()), base, f.value, {Subnode})
    {
      if reason.ImplementationReason? && base in parent && parent[base].reason.ImplementationReason? {
        return None;
      }
      var node := FindOrMakeSubnode(base, reason);
      var _ := g.AddEdge(base, node, {Subnode});
      return Some(node);
    }

    method FindOrMakeSubnode(base: Node, reason: Reason) returns (f: Node)
      requires ValidGroup(S()) && base.number < nextNode
      modifies this
      ensures ValidGroup(S()) && Subnoded(old(S()), S(), base, reason, f)
    {
      if Attached(base, reason) in subnodes {
        return subnodes[Attached(base, reason)];
      }
      WithSubnodeIsValid(S(), base, reason);
      f := MakeSubnode(base, reason);
    }

    method MakeSubnode(base: Node, reason: Reason) returns (f: Node)
      modifies this
      ensures f == Node(base.kind, old(nextNode)) && S() == WithSubnode(old(S()), base, reason)
    {
      f := NewNode(base.kind);
      subnodes := subnodes[Attached(base, reason) := f];
      parent := parent[f := Attached(base, reason)];
    }

    // The node of base's history that carries the operation and is farthest up.
    method GetHistoryNodeOfOp(loadOp: LoadOp, base: Node) returns (found: Option<Node>)
      requires ValidGroup(S())
      ensures LastWithOp(loadOps, History(S().links, base), loadOp, found)
    {
      ghost var h := S().links;
      ghost var done: seq<Node> := [];
      var node := Some(base);
      found := None;
      while node != None
        invariant Ordered(h) && History(h, base) == done + HistoryFrom(h, node)
        invariant LastWithOp(loadOps, done, loadOp, found)
        decreases |HistoryFrom(h, node)|
      {
        LastWithOpStep(loadOps, done, node.value, loadOp, found);
        if node.value in loadOps && loadOp in loadOps[node.value] {
          found := node;
        }
        HistoryStep(h, done, node.value);
        done := done + [node.value];
        node := Up(Links(parent, loadBase), node.value);
      }
      assert done + [] == done;
    }

    // Makes sure that a base that is not local points to a node for what the
    // operation loads: the one of its history that has it already, or its load
    // child, which is made if it has none.  Operations on an abstract type share
    // one operation for that type.
    method EnsureLoadNode(g: EscapeGraph, loadOp0: LoadOp, tp: GoType, base: Node) returns (node: Option<Node>)
      requires ValidGroup(S()) && g.Valid() && Good(g.Value()) && base.number < nextNode
      modifies this, g, g.rows
      ensures ValidGroup(S()) && g.Valid() && (forall r :: r in g.rows ==> r in old(g.rows) || fresh(r)) && Good(g.Value())
      ensures StatusOf(old(g.Value()), base) == LOCAL ==> node == None && S() == old(S()) && g.Value() == old(g.Value())
      ensures StatusOf(old(g.Value()), base) != LOCAL ==>
                node.Some? && Loaded(old(S()), S(), base, if tp.isAbstract then AbstractTypeLoad(tp.name) else loadOp0, node.value)
      ensures StatusOf(old(g.Value()), base) != LOCAL ==>
                node.Some? && Ensured(old(S()), S(), base, if tp.isAbstract then AbstractTypeLoad(tp.name) else loadOp0, node.value)
      ensures StatusOf(old(g.Value()), base) != LOCAL ==>
                node.Some? && g.Value() == WithEdge(old(g.Value()), base, node.value, {External})
    {
      if base !in g.status || g.status[base] == LOCAL {
        return None;
      }
      var loadOp := if tp.isAbstract then AbstractTypeLoad(tp.name) else loadOp0;
      ghost var s := S();
      var loadNode := LoadNodeFor(g, loadOp, base);
      EnsuredIsLoaded(s, S(), base, loadOp, loadNode);
      return Some(loadNode);
    }

    // The node for an operation on a base that is not local.
    method LoadNodeFor(g: EscapeGraph, loadOp: LoadOp, base: Node) returns (loadNode: Node)
      requires ValidGroup(S()) && g.Valid() && Good(g.Value()) && base.number < nextNode
      modifies this, g, g.rows
      ensures g.Valid() && (forall r :: r in g.rows ==> r in old(g.rows) || fresh(r))
      ensures Linked(old(S()), S(), base, loadOp, loadNode)
      ensures Good(g.Value()) && g.Value() == WithEdge(old(g.Value()), base, loadNode, {External})
    {
      var node := GetHistoryNodeOfOp(loadOp, base);
      FoundOnHistory(S(), base, loadOp, node);
      if node.Some? {
        var _ := g.AddEdge(base, node.value, {External});
        return node.value;
      }
      loadNode := FindOrMakeLoadNode(g, base, loadOp);
    }

    // The load child of base, made if there is none, with the operation recorded.
    method FindOrMakeLoadNode(g: EscapeGraph, base: Node, loadOp: LoadOp) returns (loadNode: Node)
      requires ValidGroup(S()) && g.Valid() && Good(g.Value()) && base.number < nextNode
      requires !HistoryHas(S(), base, loadOp)
      modifies this, g, g.rows
      ensures g.Valid() && (forall r :: r in g.rows ==> r in old(g.rows) || fresh(r))
      ensures Linked(old(S()), S(), base, loadOp, loadNode)
      ensures Good(g.Value()) && g.Value() == WithEdge(old(g.Value()), base, loadNode, {External})
    {
      RecordedIsEnsured(S(), base, loadOp);
      if base in loadChild {
        FoundHasOps(S(), base);
      }
      loadNode := LinkLoadNode(g, base, loadOp);
    }

    // The load child of base, with the operation recorded, linked to base.
    method LinkLoadNode(g: EscapeGraph, base: Node, loadOp: LoadOp) returns (loadNode: Node)
      requires (base in loadChild ==> loadChild[base] in loadOps) && g.Valid() && Good(g.Value())
      modifies this, g, g.rows
      ensures g.Valid() && (forall r :: r in g.rows ==> r in old(g.rows) || fresh(r))
      ensures loadNode == LoadChildOf(old(S()), base) && S() == WithOp(WithLoadChild(old(S()), base, loadOp), loadNode, loadOp)
      ensures Good(g.Value()) && g.Value() == WithEdge(old(g.Value()), base, loadNode, {External})
    {
      ghost var v := g.Value();
      loadNode := FindLoadNode(g, base, loadOp);
      LinkAndRecord(g, v, base, loadNode, loadOp);
    }

    // Links base to the load node, which may be so already, and records the operation.
    method LinkAndRecord(g: EscapeGraph, ghost v: EscGraph, base: Node, loadNode: Node, loadOp: LoadOp)
      requires loadNode in loadOps && g.Valid() && Good(v)
      requires g.Value() == v || g.Value() == WithEdge(v, base, loadNode, {External})
      modifies this`loadOps, g, g.rows
      ensures S() == WithOp(old(S()), loadNode, loadOp)
      ensures g.Valid() && (forall r :: r in g.rows ==> r in old(g.rows) || fresh(r))
      ensures Good(g.Value()) && g.Value() == WithEdge(v, base, loadNode, {External})
    {
      WithEdgeTwice(v, base, loadNode, {External});
      var _ := g.AddEdge(base, loadNode, {External});
      RecordOp(loadNode, loadOp);
    }

    // The load child of base.  A new one gets its edge right away and has no
    // operation yet.
    method FindLoadNode(g: EscapeGraph, base: Node, ghost loadOp: LoadOp) returns (loadNode: Node)
      requires (base in loadChild ==> loadChild[base] in loadOps) && g.Valid() && Good(g.Value())
      modifies this, g, g.rows
      ensures g.Valid() && (forall r :: r in g.rows ==> r in old(g.rows) || fresh(r)) && Good(g.Value())
      ensures S() == WithLoadChild(old(S()), base, loadOp) && loadNode == LoadChildOf(old(S()), base) && loadNode in loadOps
      ensures g.Value() == if base in old(loadChild) then old(g.Value()) else WithEdge(old(g.Value()), base, loadNode, {External})
    {
      if base in loadChild {
        return loadChild[base];
      }
      loadNode := MakeLoadNode(base, loadOp);
      var _ := g.AddEdge(base, loadNode, {External});
    }

    // A new load node below base, without operations yet.
    method MakeLoadNode(base: Node, ghost loadOp: LoadOp) returns (loadNode: Node)
      modifies this
      ensures loadNode == Node(KindLoad, old(nextNode)) && S() == WithBareLoadNode(old(S()), base, loadOp)
    {
      loadNode := NewNode(KindLoad);
      loadChild := loadChild[base := loadNode];
      loadBase := loadBase[loadNode := base];
      loadOps := loadOps[loadNode := {}];
      first := first[loadNode := loadOp];
    }

    method RecordOp(loadNode: Node, loadOp: LoadOp)
      requires loadNode in loadOps
      modifies this`loadOps
      ensures S() == WithOp(old(S()), loadNode, loadOp)
    {
      loadOps := loadOps[loadNode := loadOps[loadNode] + {loadOp}];
    }
  }
}
