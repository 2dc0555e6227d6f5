// Traces of call nodes, kept in a tree that grows at its leaves, with a key
// string for each trace.
module NodeTraces {
  import opened Decimal

  // A call node: the number of its summary graph and its own number.
  datatype CallNode = CallNode(graph: nat, id: nat)

  function LongID(n: CallNode): string {
    "#" + NatToString(n.graph) + "." + NatToString(n.id)
  }

  // The key of a trace: the identifiers of its nodes, joined.
  function KeyOf(labels: seq<CallNode>): string {
    if labels == [] then ""
    else if |labels| == 1 then LongID(labels[0])
    else KeyOf(labels[..|labels| - 1]) + "-" + LongID(labels[|labels| - 1])
  }

  // ------------------------------------------------------------ keys are unique

  lemma SplitFirst(a: string, u: string, b: string, v: string, sep: char)
    requires sep !in a && sep !in b && a + [sep] + u == b + [sep] + v
    ensures a == b && u == v
  {
    var s, t := a + [sep] + u, b + [sep] + v;
    assert s[|a|] == sep && t[|b|] == sep;
    assert s[..|a|] == a && t[..|b|] == b;
    assert |a| == |b|;
    assert a == s[..|a|] && b == t[..|b|];
    assert u == s[|a| + 1..] && v == t[|b| + 1..];
  }

  lemma SplitLast(a: string, u: string, b: string, v: string, sep: char)
    requires sep !in u && sep !in v && a + [sep] + u == b + [sep] + v
    ensures a == b && u == v
  {
    var s, t := a + [sep] + u, b + [sep] + v;
    assert s[|a|] == sep && t[|b|] == sep;
    assert s[|a| + 1..] == u && t[|b| + 1..] == v;
    assert |a| == |b|;
    assert a == s[..|a|] && b == t[..|b|];
    assert u == s[|a| + 1..] && v == t[|b| + 1..];
  }

  lemma LongIDChars(n: CallNode)
    ensures forall c :: c in LongID(n) ==> IsDigit(c) || c == '#' || c == '.'
    ensures LongID(n) != ""
  {
  }

  lemma LongIDInjective(m: CallNode, n: CallNode)
    requires LongID(m) == LongID(n)
    ensures m == n
  {
    var a, u, b, v := NatToString(m.graph), NatToString(m.id), NatToString(n.graph), NatToString(n.id);
    assert LongID(m)[1..] == a + "." + u && LongID(n)[1..] == b + "." + v;
    SplitFirst(a, u, b, v, '.');
    NatToStringInjective(m.graph, n.graph);
    NatToStringInjective(m.id, n.id);
  }

  // Different traces have different keys.
  lemma {:induction false} KeyInjective(s: seq<CallNode>, t: seq<CallNode>)
    requires KeyOf(s) == KeyOf(t)
    ensures s == t
  {
    if s == [] || t == [] {
      KeyNotEmpty(s);
      KeyNotEmpty(t);
    } else {
      var x, y := s[|s| - 1], t[|t| - 1];
      var p, q := s[..|s| - 1], t[..|t| - 1];
      assert s == p + [x] && t == q + [y];
      LongIDChars(x);
      LongIDChars(y);
      if |s| == 1 && |t| == 1 {
        LongIDInjective(x, y);
      } else {
        assert |s| > 1 ==> KeyOf(s)[|KeyOf(p)|] == '-';
        assert |t| > 1 ==> KeyOf(t)[|KeyOf(q)|] == '-';
        SplitLast(KeyOf(p), LongID(x), KeyOf(q), LongID(y), '-');
        LongIDInjective(x, y);
        KeyInjective(p, q);
      }
    }
  }

  lemma KeyNotEmpty(s: seq<CallNode>)
    ensures KeyOf(s) == "" <==> s == []
  {
    if s != [] {
      LongIDChars(s[|s| - 1]);
    }
  }

  lemma {:induction false} KeyChars(s: seq<CallNode>)
    ensures forall c :: c in KeyOf(s) ==> IsDigit(c) || c == '#' || c == '.' || c == '-'
  {
    if s != [] {
      LongIDChars(s[|s| - 1]);
      KeyChars(s[..|s| - 1]);
    }
  }

  // ------------------------------------------------------------ the tree

  // Call sites are printed with the number of their graph first, and joined by
  // dashes from the root on.
  lemma KeyOfExample()
    ensures KeyOf([CallNode(3, 4), CallNode(5, 6)]) == "#3.4-#5.6"
  {
    assert [CallNode(3, 4), CallNode(5, 6)][..1] == [CallNode(3, 4)];
    assert KeyOf([CallNode(3, 4)]) == "#3.4";
  }

  class NodeTree {
    const node: CallNode
    const parent: NodeTree?
    const height: nat
    const key: string
    ghost const labels: seq<CallNode>  // from the root down to this node
    var children: seq<NodeTree>

    // Nothing here depends on the heap: only the list of children ever changes.
    ghost predicate Valid()
      decreases height
    {
      && height == |labels| && key == KeyOf(labels)
      && (parent == null ==> labels == [node])
      && (parent != null ==> parent.height < height && parent.Valid() && labels == parent.labels + [node])
    }

    ghost predicate ChildrenOk()
      reads this
    {
      && (forall i :: 0 <= i < |children| ==> children[i].parent == this && children[i].Valid())
      && (forall i, j :: 0 <= i < j < |children| ==> children[i].node != children[j].node)
    }

    constructor (node: CallNode)
      ensures Valid() && ChildrenOk() && labels == [node] && parent == null && children == []
    {
      this.node, parent, height, key := node, null, 1, LongID(node);
      labels, children := [node], [];
    }

    constructor Below(parent: NodeTree, node: CallNode)
      requires parent.Valid()
      ensures Valid() && ChildrenOk() && labels == parent.labels + [node] && this.parent == parent && children == []
    {
      this.node, this.parent, height, key := node, parent, parent.height + 1, parent.key + "-" + LongID(node);
      labels, children := parent.labels + [node], [];
      new;
      assert labels[..|labels| - 1] == parent.labels;
      assert parent.labels != [] by {
        if parent.parent == null {}
      }
    }

    // The child with the given node, made if there is none.
    method Add(next: CallNode) returns (child: NodeTree)
      requires Valid() && ChildrenOk()
      modifies this`children
      ensures ChildrenOk() && child in children && child.Valid()
      ensures child.parent == this && child.labels == labels + [next]
      ensures children == old(children) || (fresh(child) && child.children == [] && children == old(children) + [child])
      ensures (exists c :: c in old(children) && c.node == next) <==> children == old(children)
    {
      for i := 0 to |children|
        invariant forall j :: 0 <= j < i ==> children[j].node != next
      {
        if children[i].node == next {
          return children[i];
        }
      }
      child := new NodeTree.Below(this, next);
      children := children + [child];
    }

    // Add, seen from the whole tree.
    method AddIn(next: CallNode, ghost nodes: set<NodeTree>) returns (child: NodeTree)
      requires this in nodes && GoodTree(nodes)
      modifies this`children
      ensures child !in nodes ==> fresh(child)
      ensures GoodTree(nodes + {child})
      ensures child.parent == this && child.labels == labels + [next]
    {
      child := Add(next);
      forall t | t in nodes && t != this ensures t.ChildrenOk() && forall c :: c in t.children ==> c in nodes {
      }
    }

    // Follows the labels of s from this node, adding what is missing.
    method AddAll(s: seq<CallNode>, ghost nodes: set<NodeTree>) returns (end: NodeTree, ghost nodes': set<NodeTree>)
      requires this in nodes && GoodTree(nodes)
      modifies nodes
      ensures nodes <= nodes' && fresh(nodes' - nodes) && GoodTree(nodes')
      ensures end in nodes' && end.labels == labels + s
    {
      end, nodes' := this, nodes;
      for i := 0 to |s|
        invariant nodes <= nodes' && fresh(nodes' - nodes) && GoodTree(nodes')
        invariant end in nodes' && end.labels == labels + s[..i]
      {
        SnocSlice(labels, s, i);
        end := end.AddIn(s[i], nodes');
        nodes' := nodes' + {end};
      }
      assert s[..|s|] == s;
    }

    // Follows another trace that starts at this node; null if it starts elsewhere.
    method Append(tree: NodeTree?, ghost nodes: set<NodeTree>) returns (end: NodeTree?, ghost nodes': set<NodeTree>)
      requires this in nodes && GoodTree(nodes) && (tree != null ==> tree.Valid())
      modifies nodes
      ensures nodes <= nodes' && fresh(nodes' - nodes) && GoodTree(nodes')
      ensures end != null ==> end in nodes'
      ensures end == null <==> tree != null && tree != this && tree.labels[0] != node
      ensures tree == null || tree == this ==> end == this
      ensures tree != null && tree != this && tree.labels[0] == node ==> end.labels == labels + tree.labels[1..]
    {
      nodes' := nodes;
      if tree == this || tree == null {
        return this, nodes;
      }
      var slice := tree.ToSlice();
      var s := slice[..];
      if node != s[0] {
        return null, nodes;
      }
      end, nodes' := AddAll(s[1..], nodes);
    }

    // The labels from the root to this node.
    method ToSlice() returns (s: array<CallNode>)
      requires Valid()
      ensures fresh(s) && s[..] == labels
    {
      s := new CallNode[height](_ => node);
      var pos: nat := height;
      var cur: NodeTree? := this;
      while cur != null
        invariant Filling(s[..], labels, cur, pos)
        decreases pos
      {
        FillingStep(s[..], labels, cur, pos);
        pos := pos - 1;
        s[pos] := cur.node;
        cur := cur.parent;
      }
    }

    // The nearest ancestor whose node prints like this one's, if any.
    method GetLassoHandle(repr: CallNode -> string) returns (handle: NodeTree?)
      requires Valid()
      ensures handle == null <==> !HasLasso(repr, labels)
      ensures handle != null ==> IsAncestor(handle, labels) && IsNearest(repr, labels, node, handle.height)
    {
      if height <= 1 {
        return null;
      }
      AncestorStep(this, labels);
      var cur := parent;
      while cur != null
        invariant cur != null ==> IsAncestor(cur, labels)
        invariant NoneFrom(repr, labels, node, if cur == null then 0 else cur.height)
        decreases if cur == null then 0 else cur.height
      {
        AncestorStep(cur, labels);
        if repr(cur.node) == repr(node) {
          NearestIsLasso(repr, labels, node, cur.height);
          return cur;
        }
        cur := cur.parent;
      }
      NoneIsNoLasso(repr, labels, node);
      return null;
    }
  }

  // From place k on, nothing before the last label prints like x.
  ghost predicate NoneFrom(repr: CallNode -> string, labels: seq<CallNode>, x: CallNode, k: nat) {
    forall i :: k <= i < |labels| - 1 ==> repr(labels[i]) != repr(x)
  }

  // The last label but for the final one that prints like x is the h-th.
  ghost predicate IsNearest(repr: CallNode -> string, labels: seq<CallNode>, x: CallNode, h: nat) {
    0 < h < |labels| && repr(labels[h - 1]) == repr(x) && NoneFrom(repr, labels, x, h)
  }

  lemma NearestIsLasso(repr: CallNode -> string, labels: seq<CallNode>, x: CallNode, h: nat)
    requires labels != [] && labels[|labels| - 1] == x && IsNearest(repr, labels, x, h)
    ensures HasLasso(repr, labels)
  {
  }

  lemma NoneIsNoLasso(repr: CallNode -> string, labels: seq<CallNode>, x: CallNode)
    requires labels != [] && labels[|labels| - 1] == x && NoneFrom(repr, labels, x, 0)
    ensures !HasLasso(repr, labels)
  {
  }

  // The slice is filled from the end down to the place of cur.
  ghost predicate Filling(s: seq<CallNode>, labels: seq<CallNode>, cur: NodeTree?, pos: nat) {
    && |s| == |labels| && pos <= |s| && s[pos..] == labels[pos..]
    && if cur == null then pos == 0 else IsAncestor(cur, labels) && pos == cur.height
  }

  lemma FillingStep(s: seq<CallNode>, labels: seq<CallNode>, cur: NodeTree, pos: nat)
    requires Filling(s, labels, cur, pos)
    ensures pos > 0 && Filling(s[pos - 1 := cur.node], labels, cur.parent, pos - 1)
  {
    AncestorStep(cur, labels);
    var s' := s[pos - 1 := cur.node];
    forall k | pos - 1 <= k < |s| ensures s'[k] == labels[k] {
      if k >= pos {
        assert s[pos..][k - pos] == labels[pos..][k - pos];
      }
    }
  }

  // t is a node on the way from the root to the node with these labels.
  ghost predicate IsAncestor(t: NodeTree, labels: seq<CallNode>) {
    t.Valid() && t.height <= |labels| && t.labels == labels[..t.height]
  }

  lemma AncestorStep(t: NodeTree, labels: seq<CallNode>)
    requires IsAncestor(t, labels)
    ensures t.height > 0 && labels[t.height - 1] == t.node
    ensures if t.parent == null then t.height == 1 else t.parent.height == t.height - 1 && IsAncestor(t.parent, labels)
  {
    assert t.labels[t.height - 1] == t.node;
    if t.parent != null {
      assert t.parent.Valid() && t.parent.height == |t.parent.labels|;
      assert t.parent.labels == t.labels[..t.height - 1];
      assert t.labels[..t.height - 1] == labels[..t.height - 1];
    }
  }

  lemma SnocSlice(a: seq<CallNode>, s: seq<CallNode>, i: nat)
    requires i < |s|
    ensures a + s[..i] + [s[i]] == a + s[..i + 1]
  {
  }

  // Every node of the tree is sound and the tree holds its parent and its children.
  ghost predicate GoodTree(nodes: set<NodeTree>)
    reads nodes
  {
    forall t :: t in nodes ==>
      t.Valid() && t.ChildrenOk() && (t.parent == null || t.parent in nodes) && forall c :: c in t.children ==> c in nodes
  }

  // The labels of a trace; no trace is the empty one.
  ghost function LabelsFrom(cur: NodeTree?): seq<CallNode> {
    if cur == null then [] else cur.labels
  }

  lemma LabelsEnd(t: NodeTree)
    requires t.Valid()
    ensures t.labels == LabelsFrom(t.parent) + [t.node] && t.labels[|t.labels| - 1] == t.node
  {
  }

  // The last node prints like an earlier one.
  ghost predicate HasLasso(repr: CallNode -> string, labels: seq<CallNode>) {
    exists k :: 0 <= k < |labels| - 1 && repr(labels[k]) == repr(labels[|labels| - 1])
  }
}
