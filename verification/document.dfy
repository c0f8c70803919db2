/** The Slate document tree as the list plugin sees it: elements carry a
    `type` tag and, for list items, a flat `level` attribute; text leaves
    carry a string and optional style attributes. A path is the sequence of
    child indices from the editor root to a node. */
module Document {
  import opened Options

  type Path = seq<nat>

  datatype Node =
    | Text(text: string, fontSize: Option<string>, fontFamily: Option<string>, marks: set<string>)
    | Element(kind: string, level: Option<int>, ordered: Option<bool>, children: seq<Node>)

  const ListItemType := "list-item"
  const ParagraphType := "paragraph"
  const TableType := "table"
  const BulletedListType := "bulleted-list"
  const NumberedListType := "numbered-list"

  /** `DomEditor.getNodeType`: an element's tag, the empty string for a text leaf. */
  function TypeOf(n: Node): string {
    if n.Element? then n.kind else ""
  }

  predicate IsListItem(n: Node) {
    n.Element? && n.kind == ListItemType
  }

  /** `const { level = 0 } = elem`: a missing level reads as 0. */
  function LevelOf(n: Node): int {
    if n.Element? then n.level.GetOr(0) else 0
  }

  datatype Point = Point(path: Path, offset: nat)

  datatype Range = Range(anchor: Point, focus: Point) {
    /** `Range.isCollapsed`: both ends are the same point. */
    predicate IsCollapsed() {
      anchor == focus
    }
  }

  /** The editor state a handler reads: the top-level blocks and the selection (`null` is `None`). */
  datatype Editor = Editor(doc: seq<Node>, selection: Option<Range>)

  /** `Node.get`: the node a path addresses below `nodes`; `None` for the empty
      path and wherever Slate would throw. */
  function NodeAt(nodes: seq<Node>, p: Path): Option<Node>
    decreases |p|
  {
    if |p| == 0 || p[0] >= |nodes| then None
    else if |p| == 1 then Some(nodes[p[0]])
    else match nodes[p[0]]
      case Text(_, _, _, _) => None
      case Element(_, _, _, cs) => NodeAt(cs, p[1..])
  }

  /** A selection point whose path addresses a text leaf, as Slate keeps it.
      The offset is left unbounded: Slate counts it in UTF-16 code units, and
      no handler reads more of it than whether it is 0. */
  predicate AddressesText(doc: seq<Node>, pt: Point) {
    NodeAt(doc, pt.path).Some? && NodeAt(doc, pt.path).value.Text?
  }

  /** The invariants Slate maintains on entry to every handler: the editor's
      children are elements and both ends of the selection lie in text leaves. */
  predicate Valid(ed: Editor) {
    && (forall i :: 0 <= i < |ed.doc| ==> ed.doc[i].Element?)
    && (ed.selection.Some? ==>
          AddressesText(ed.doc, ed.selection.value.anchor) && AddressesText(ed.doc, ed.selection.value.focus))
  }

  /** Replaces the node at `p` by `n`; every other top-level block stays as it was. */
  function UpdateAt(nodes: seq<Node>, p: Path, n: Node): (r: seq<Node>)
    requires NodeAt(nodes, p).Some?
    ensures |r| == |nodes|
    ensures NodeAt(r, p) == Some(n)
    ensures forall j :: 0 <= j < |nodes| && j != p[0] ==> r[j] == nodes[j]
    decreases |p|
  {
    if |p| == 1 then nodes[p[0] := n]
    else
      var e := nodes[p[0]];
      nodes[p[0] := e.(children := UpdateAt(e.children, p[1..], n))]
  }

  /** `Path.isAncestor` or equality: `a` is a prefix of `b`. */
  predicate IsPrefix(a: Path, b: Path) {
    |a| <= |b| && a == b[..|a|]
  }

  /** Two elements with the same tag, level and list attribute (children aside). */
  predicate SameAttrs(x: Node, y: Node) {
    && x.Element? && y.Element?
    && x.kind == y.kind && x.level == y.level && x.ordered == y.ordered
  }

  /** `b` differs from `a` only at the node `p` addresses: every node neither
      at `p` nor above it is the same node, and every element above `p` keeps
      its own attributes. */
  ghost predicate EditedOnlyAt(a: seq<Node>, b: seq<Node>, p: Path) {
    && (forall q :: !IsPrefix(q, p) ==> NodeAt(b, q) == NodeAt(a, q))
    && (forall q :: 1 <= |q| < |p| && IsPrefix(q, p) ==>
          NodeAt(a, q).Some? && NodeAt(b, q).Some? && SameAttrs(NodeAt(a, q).value, NodeAt(b, q).value))
  }

  /** Prefixing both paths with the same index keeps the prefix relation. */
  lemma PrefixCons(i: nat, a: Path, b: Path)
    ensures IsPrefix([i] + a, [i] + b) <==> IsPrefix(a, b)
  {
    if |a| <= |b| {
      assert ([i] + b)[..|[i] + a|] == [i] + b[..|a|];
      assert ([i] + a)[1..] == a;
      assert ([i] + b[..|a|])[1..] == b[..|a|];
    }
  }

  /** The forest of children below `par`: the editor's top-level blocks when
      `par` is empty, the children of the element `par` addresses otherwise. */
  function ForestAt(nodes: seq<Node>, par: Path): Option<seq<Node>> {
    if |par| == 0 then Some(nodes)
    else match NodeAt(nodes, par)
      case Some(Element(_, _, _, cs)) => Some(cs)
      case _ => None
  }

  lemma ForestAtCons(nodes: seq<Node>, i: nat, q: Path)
    requires i < |nodes| && nodes[i].Element?
    ensures ForestAt(nodes, [i] + q) == ForestAt(nodes[i].children, q)
  {
    if |q| >= 1 {
      NodeAtCons(nodes, i, q);
    }
  }

  /** A path through the element `nodes[i]` continues among its children. */
  lemma NodeAtCons(nodes: seq<Node>, i: nat, q: Path)
    requires i < |nodes| && nodes[i].Element? && |q| >= 1
    ensures NodeAt(nodes, [i] + q) == NodeAt(nodes[i].children, q)
  {
    assert ([i] + q)[1..] == q;
  }

  /** Two forests that agree at index `i` address the same nodes through `i`. */
  lemma NodeAtSameHead(a: seq<Node>, b: seq<Node>, q: Path)
    requires |q| >= 1 && q[0] < |a| && q[0] < |b| && a[q[0]] == b[q[0]]
    ensures NodeAt(a, q) == NodeAt(b, q)
  {
  }

  /** What `UpdateAt` leaves alone: nodes off the path to `p` are untouched,
      the elements above `p` keep their attributes, and when the new node has
      the old node's children, everything below `p` is untouched too. */
  lemma {:induction false} UpdateAtFrame(nodes: seq<Node>, p: Path, n: Node, q: Path)
    requires NodeAt(nodes, p).Some?
    ensures !IsPrefix(q, p) && !IsPrefix(p, q) ==> NodeAt(UpdateAt(nodes, p, n), q) == NodeAt(nodes, q)
    ensures 1 <= |q| < |p| && IsPrefix(q, p) ==>
              && NodeAt(nodes, q).Some? && NodeAt(UpdateAt(nodes, p, n), q).Some?
              && SameAttrs(NodeAt(nodes, q).value, NodeAt(UpdateAt(nodes, p, n), q).value)
    ensures |q| > |p| && IsPrefix(p, q) && NodeAt(nodes, p).value.Element? && n.Element?
            && n.children == NodeAt(nodes, p).value.children
            ==> NodeAt(UpdateAt(nodes, p, n), q) == NodeAt(nodes, q)
    decreases |p|
  {
    var r := UpdateAt(nodes, p, n);
    if |q| == 0 || q[0] >= |nodes| {
    } else if q[0] != p[0] {
      assert !IsPrefix(q, p) && !IsPrefix(p, q);
      NodeAtSameHead(r, nodes, q);
    } else if |p| == 1 {
      assert IsPrefix(p, q);
      if |q| > 1 && NodeAt(nodes, p).value.Element? && n.Element? && n.children == NodeAt(nodes, p).value.children {
        assert q == [q[0]] + q[1..];
        NodeAtCons(r, q[0], q[1..]);
        NodeAtCons(nodes, q[0], q[1..]);
      }
    } else {
      var e := nodes[p[0]];
      var cs := UpdateAt(e.children, p[1..], n);
      assert r[p[0]] == e.(children := cs);
      if |q| == 1 {
        assert IsPrefix(q, p);
      } else {
        var q' := q[1..];
        assert q == [q[0]] + q';
        assert p == [p[0]] + p[1..];
        assert IsPrefix(q, p) <==> IsPrefix(q', p[1..]);
        assert IsPrefix(p, q) <==> IsPrefix(p[1..], q') by {
          if |p| <= |q| {
            assert q[..|p|] == [q[0]] + q'[..|p[1..]|];
          }
        }
        UpdateAtFrame(e.children, p[1..], n, q');
        NodeAtCons(r, q[0], q');
        NodeAtCons(nodes, q[0], q');
        assert NodeAt(e.children, p[1..]) == NodeAt(nodes, p);
      }
    }
  }

  /** Replacing the node at `p` by one with the same children changes nothing but that node. */
  lemma UpdateAtEditsOnlyAt(nodes: seq<Node>, p: Path, n: Node)
    requires NodeAt(nodes, p).Some? && NodeAt(nodes, p).value.Element? && n.Element?
    requires n.children == NodeAt(nodes, p).value.children
    ensures EditedOnlyAt(nodes, UpdateAt(nodes, p, n), p)
  {
    var r := UpdateAt(nodes, p, n);
    forall q | !IsPrefix(q, p)
      ensures NodeAt(r, q) == NodeAt(nodes, q)
    {
      UpdateAtFrame(nodes, p, n, q);
    }
    forall q | 1 <= |q| < |p| && IsPrefix(q, p)
      ensures NodeAt(nodes, q).Some? && NodeAt(r, q).Some? && SameAttrs(NodeAt(nodes, q).value, NodeAt(r, q).value)
    {
      UpdateAtFrame(nodes, p, n, q);
    }
  }

  /** The text leaves of a forest, in document order: the document's content. */
  function Leaves(nodes: seq<Node>): seq<Node>
    decreases nodes
  {
    if |nodes| == 0 then [] else LeavesOf(nodes[0]) + Leaves(nodes[1..])
  }

  function LeavesOf(n: Node): seq<Node>
    decreases n
  {
    match n
    case Text(_, _, _, _) => [n]
    case Element(_, _, _, cs) => Leaves(cs)
  }

  /** Two forests that differ at most in the `level` attributes of their elements. */
  predicate SameUpToLevels(a: seq<Node>, b: seq<Node>)
    decreases a
  {
    |a| == |b| && forall j :: 0 <= j < |a| ==> SameNodeUpToLevel(a[j], b[j])
  }

  predicate SameNodeUpToLevel(x: Node, y: Node)
    decreases x
  {
    match x
    case Text(_, _, _, _) => x == y
    case Element(k, _, o, cs) =>
      y.Element? && y.kind == k && y.ordered == o && SameUpToLevels(cs, y.children)
  }

  lemma {:induction false} LeavesAppend(a: seq<Node>, b: seq<Node>)
    ensures Leaves(a + b) == Leaves(a) + Leaves(b)
    decreases |a|
  {
    if |a| == 0 {
      assert a + b == b;
    } else {
      assert (a + b)[1..] == a[1..] + b;
      LeavesAppend(a[1..], b);
    }
  }

  /** The content of a forest splits around any one of its members. */
  lemma LeavesSplit(pre: seq<Node>, x: Node, post: seq<Node>)
    ensures Leaves(pre + [x] + post) == Leaves(pre) + LeavesOf(x) + Leaves(post)
  {
    var tail := [x] + post;
    assert pre + [x] + post == pre + tail;
    LeavesAppend(pre, tail);
    assert tail[1..] == post;
    assert Leaves(tail) == LeavesOf(x) + Leaves(post);
  }

  /** Replacing one member by a node with the same content keeps the forest's content. */
  lemma LeavesReplace(s: seq<Node>, i: nat, x: Node)
    requires i < |s|
    requires LeavesOf(x) == LeavesOf(s[i])
    ensures Leaves(s[i := x]) == Leaves(s)
  {
    assert s == s[..i] + [s[i]] + s[i+1..];
    assert s[i := x] == s[..i] + [x] + s[i+1..];
    LeavesSplit(s[..i], s[i], s[i+1..]);
    LeavesSplit(s[..i], x, s[i+1..]);
  }

  /** Updating a node with one of the same content keeps the document's content. */
  lemma {:induction false} UpdateAtLeaves(nodes: seq<Node>, p: Path, n: Node)
    requires NodeAt(nodes, p).Some?
    requires LeavesOf(n) == LeavesOf(NodeAt(nodes, p).value)
    ensures Leaves(UpdateAt(nodes, p, n)) == Leaves(nodes)
    decreases |p|
  {
    var e := nodes[p[0]];
    if |p| == 1 {
      LeavesReplace(nodes, p[0], n);
    } else {
      UpdateAtLeaves(e.children, p[1..], n);
      LeavesReplace(nodes, p[0], e.(children := UpdateAt(e.children, p[1..], n)));
    }
  }

  /** Writing back the node already at `p` changes nothing. */
  lemma {:induction false} UpdateAtSelf(nodes: seq<Node>, p: Path)
    requires NodeAt(nodes, p).Some?
    ensures UpdateAt(nodes, p, NodeAt(nodes, p).value) == nodes
    decreases |p|
  {
    if |p| > 1 {
      var e := nodes[p[0]];
      UpdateAtSelf(e.children, p[1..]);
    }
  }

  /** A second update at the same path overrides the first. */
  lemma {:induction false} UpdateAtTwice(nodes: seq<Node>, p: Path, m: Node, n: Node)
    requires NodeAt(nodes, p).Some?
    ensures UpdateAt(UpdateAt(nodes, p, m), p, n) == UpdateAt(nodes, p, n)
    decreases |p|
  {
    if |p| > 1 {
      var e := nodes[p[0]];
      UpdateAtTwice(e.children, p[1..], m, n);
    }
  }

  lemma {:induction false} SameUpToLevelsRefl(a: seq<Node>)
    ensures SameUpToLevels(a, a)
    decreases a
  {
    forall j | 0 <= j < |a|
      ensures SameNodeUpToLevel(a[j], a[j])
    {
      SameNodeRefl(a[j]);
    }
  }

  lemma {:induction false} SameNodeRefl(x: Node)
    ensures SameNodeUpToLevel(x, x)
    decreases x
  {
    if x.Element? {
      SameUpToLevelsRefl(x.children);
    }
  }

  /** Forests equal up to levels have the same content. */
  lemma {:induction false} SameUpToLevelsLeaves(a: seq<Node>, b: seq<Node>)
    requires SameUpToLevels(a, b)
    ensures Leaves(a) == Leaves(b)
    decreases a
  {
    if |a| > 0 {
      SameNodeLeaves(a[0], b[0]);
      assert SameUpToLevels(a[1..], b[1..]) by {
        forall j | 0 <= j < |a[1..]|
          ensures SameNodeUpToLevel(a[1..][j], b[1..][j])
        {
          assert SameNodeUpToLevel(a[j + 1], b[j + 1]);
        }
      }
      SameUpToLevelsLeaves(a[1..], b[1..]);
    }
  }

  lemma {:induction false} SameNodeLeaves(x: Node, y: Node)
    requires SameNodeUpToLevel(x, y)
    ensures LeavesOf(x) == LeavesOf(y)
    decreases x
  {
    if x.Element? {
      SameUpToLevelsLeaves(x.children, y.children);
    }
  }

  /** Forests equal up to levels address the same nodes, equal up to levels;
      in particular the same text leaves. */
  lemma {:induction false} SameUpToLevelsNodeAt(a: seq<Node>, b: seq<Node>, q: Path)
    requires SameUpToLevels(a, b)
    ensures NodeAt(a, q).Some? <==> NodeAt(b, q).Some?
    ensures NodeAt(a, q).Some? ==> SameNodeUpToLevel(NodeAt(a, q).value, NodeAt(b, q).value)
    decreases |q|
  {
    if |q| > 1 && q[0] < |a| {
      assert SameNodeUpToLevel(a[q[0]], b[q[0]]);
      if a[q[0]].Element? {
        SameUpToLevelsNodeAt(a[q[0]].children, b[q[0]].children, q[1..]);
      }
    }
  }

  /** Updating a node by one equal up to its level keeps the forest equal up to levels. */
  lemma {:induction false} UpdateAtSameUpToLevels(nodes: seq<Node>, p: Path, n: Node)
    requires NodeAt(nodes, p).Some?
    requires SameNodeUpToLevel(NodeAt(nodes, p).value, n)
    ensures SameUpToLevels(nodes, UpdateAt(nodes, p, n))
    decreases |p|
  {
    var r := UpdateAt(nodes, p, n);
    var e := nodes[p[0]];
    if |p| > 1 {
      UpdateAtSameUpToLevels(e.children, p[1..], n);
      SameUpToLevelsRefl(e.children);
    }
    forall j | 0 <= j < |nodes|
      ensures SameNodeUpToLevel(nodes[j], r[j])
    {
      if j != p[0] {
        SameNodeRefl(nodes[j]);
      }
    }
  }
}
