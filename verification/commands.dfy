/** What a list-plugin handler asks the editor to do, and the effect of the
    tree edits among those requests on the document. The wrapped handlers and
    Slate's `removeNodes` / `mergeNodes` are recorded, not executed. */
module Commands {
  import opened Options
  import opened Document

  /** The `unit` argument of `deleteBackward`, passed through untouched. */
  datatype TextUnit = Character | Word | Line | Block

  datatype Command =
    /** The wrapped `deleteBackward(unit)`. */
    | DeletePrevious(unit: TextUnit)
    /** The wrapped `handleTab()`. */
    | TabPrevious
    /** The wrapped `normalizeNode([node, path])`. */
    | NormalizePrevious(node: Node, path: Path)
    /** `Transforms.removeNodes(editor, { mode: 'highest' })` at the selection. */
    | RemoveHighest
    /** `Transforms.mergeNodes(editor, { at: point, hanging, voids })`. */
    | MergeNodes(point: Point, hanging: bool, voids: bool)
    /** `Transforms.setNodes(editor, { level }, { at })`. */
    | SetLevel(at: Path, level: int)
    /** `Transforms.setNodes(editor, { type: 'paragraph', ordered: undefined, level: undefined })`. */
    | ToParagraph(at: Path)
    /** `Transforms.unwrapNodes(editor, { at })`. */
    | Unwrap(at: Path)
  {
    /** The requests whose effect on the tree this model executes. */
    predicate IsTreeEdit() {
      SetLevel? || ToParagraph? || Unwrap?
    }
  }

  /** Removes the element at `p` and splices its children, in order, into its
      parent where it stood; `None` whenever the path does not address an element. */
  function UnwrapAt(nodes: seq<Node>, p: Path): (r: Option<seq<Node>>)
    ensures r.Some? <==> NodeAt(nodes, p).Some? && NodeAt(nodes, p).value.Element?
    ensures r.Some? ==> Leaves(r.value) == Leaves(nodes)
    ensures r.Some? && |p| == 1 ==>
      var i, cs := p[0], nodes[p[0]].children;
      && |r.value| == |nodes| - 1 + |cs|
      && r.value[..i] == nodes[..i]
      && r.value[i..i + |cs|] == cs
      && r.value[i + |cs|..] == nodes[i + 1..]
    ensures r.Some? && |p| > 1 ==>
      |r.value| == |nodes| && forall j :: 0 <= j < |nodes| && j != p[0] ==> r.value[j] == nodes[j]
    decreases |p|
  {
    if |p| == 0 || p[0] >= |nodes| || nodes[p[0]].Text? then None
    else
      var i, e := p[0], nodes[p[0]];
      if |p| == 1 then
        var pre, post := nodes[..i], nodes[i + 1..];
        assert nodes == pre + [e] + post;
        LeavesSplit(pre, e, post);
        LeavesAppend(pre + e.children, post);
        LeavesAppend(pre, e.children);
        Some(pre + e.children + post)
      else
        match UnwrapAt(e.children, p[1..])
        case None => None
        case Some(cs) =>
          LeavesReplace(nodes, i, e.(children := cs));
          Some(nodes[i := e.(children := cs)])
  }

  /** `b` is `a` with the element at `p` replaced, in its parent's children,
      by its own children: the parent's forest is spliced, every node off the
      path to the parent is the same node, and the elements on that path keep
      their attributes. */
  ghost predicate SplicedAt(a: seq<Node>, b: seq<Node>, p: Path) {
    && |p| >= 1
    && var par, j := p[..|p| - 1], p[|p| - 1];
    && ForestAt(a, par).Some?
    && var sib := ForestAt(a, par).value;
    && j < |sib| && sib[j].Element?
    && ForestAt(b, par) == Some(sib[..j] + sib[j].children + sib[j + 1..])
    && (forall q :: !IsPrefix(q, par) && !IsPrefix(par, q) ==> NodeAt(b, q) == NodeAt(a, q))
    && (forall q :: 1 <= |q| <= |par| && IsPrefix(q, par) ==>
          NodeAt(a, q).Some? && NodeAt(b, q).Some? && SameAttrs(NodeAt(a, q).value, NodeAt(b, q).value))
  }

  /** An unwrap at any depth splices the element's children into its parent's forest. */
  lemma {:induction false} UnwrapAtForest(nodes: seq<Node>, p: Path)
    requires UnwrapAt(nodes, p).Some?
    ensures var par, j := p[..|p| - 1], p[|p| - 1];
      && ForestAt(nodes, par).Some?
      && var sib := ForestAt(nodes, par).value;
      && j < |sib| && sib[j].Element?
      && ForestAt(UnwrapAt(nodes, p).value, par) == Some(sib[..j] + sib[j].children + sib[j + 1..])
    decreases |p|
  {
    var r := UnwrapAt(nodes, p).value;
    var i, e := p[0], nodes[p[0]];
    if |p| == 1 {
      assert p[..|p| - 1] == [];
    } else {
      var p' := p[1..];
      var cs := UnwrapAt(e.children, p').value;
      assert r == nodes[i := e.(children := cs)];
      UnwrapAtForest(e.children, p');
      var par' := p'[..|p'| - 1];
      assert p[..|p| - 1] == [i] + par';
      assert p[|p| - 1] == p'[|p'| - 1];
      ForestAtCons(nodes, i, par');
      ForestAtCons(r, i, par');
    }
  }

  /** What an unwrap leaves alone: nodes off the path to the parent, and the
      attributes of the elements on that path. */
  lemma {:induction false} UnwrapAtFrame(nodes: seq<Node>, p: Path, q: Path)
    requires UnwrapAt(nodes, p).Some?
    ensures var par := p[..|p| - 1];
      !IsPrefix(q, par) && !IsPrefix(par, q) ==> NodeAt(UnwrapAt(nodes, p).value, q) == NodeAt(nodes, q)
    ensures var par := p[..|p| - 1];
      1 <= |q| <= |par| && IsPrefix(q, par) ==>
        && NodeAt(nodes, q).Some? && NodeAt(UnwrapAt(nodes, p).value, q).Some?
        && SameAttrs(NodeAt(nodes, q).value, NodeAt(UnwrapAt(nodes, p).value, q).value)
    decreases |p|
  {
    var r := UnwrapAt(nodes, p).value;
    var par := p[..|p| - 1];
    var i, e := p[0], nodes[p[0]];
    if |p| == 1 {
      assert par == [];
      assert IsPrefix(par, q) by {
        assert q[..0] == [];
      }
    } else {
      var p' := p[1..];
      var cs := UnwrapAt(e.children, p').value;
      assert r == nodes[i := e.(children := cs)];
      var par' := p'[..|p'| - 1];
      assert par == [i] + par';
      if |q| == 0 {
        assert IsPrefix(q, par);
      } else if q[0] < |nodes| && q[0] != i {
        assert !IsPrefix(q, par) && !IsPrefix(par, q);
        NodeAtSameHead(r, nodes, q);
      } else if q[0] == i {
        if |q| == 1 {
          assert IsPrefix(q, par);
        } else {
          var q' := q[1..];
          assert q == [i] + q';
          PrefixCons(i, q', par');
          PrefixCons(i, par', q');
          UnwrapAtFrame(e.children, p', q');
          NodeAtCons(r, i, q');
          NodeAtCons(nodes, i, q');
        }
      } else {
        assert !IsPrefix(q, par);
      }
    }
  }

  /** An unwrap at any depth splices the element's children into its parent
      and leaves the rest of the tree alone. */
  lemma UnwrapAtSplice(nodes: seq<Node>, p: Path)
    requires UnwrapAt(nodes, p).Some?
    ensures SplicedAt(nodes, UnwrapAt(nodes, p).value, p)
  {
    var r := UnwrapAt(nodes, p).value;
    var par := p[..|p| - 1];
    UnwrapAtForest(nodes, p);
    forall q | !IsPrefix(q, par) && !IsPrefix(par, q)
      ensures NodeAt(r, q) == NodeAt(nodes, q)
    {
      UnwrapAtFrame(nodes, p, q);
    }
    forall q | 1 <= |q| <= |par| && IsPrefix(q, par)
      ensures NodeAt(nodes, q).Some? && NodeAt(r, q).Some? && SameAttrs(NodeAt(nodes, q).value, NodeAt(r, q).value)
    {
      UnwrapAtFrame(nodes, p, q);
    }
  }

  /** The effect of one tree edit; `None` where the path does not address an element. */
  function Apply(doc: seq<Node>, c: Command): (r: Option<seq<Node>>)
    requires c.IsTreeEdit()
    ensures r.Some? <==> NodeAt(doc, c.at).Some? && NodeAt(doc, c.at).value.Element?
    ensures r.Some? ==> Leaves(r.value) == Leaves(doc)
    ensures r.Some? && !c.Unwrap? ==>
      && |r.value| == |doc|
      && (forall j :: 0 <= j < |doc| && j != c.at[0] ==> r.value[j] == doc[j])
      && NodeAt(r.value, c.at).Some?
      && NodeAt(r.value, c.at).value.Element?
      && NodeAt(r.value, c.at).value.children == NodeAt(doc, c.at).value.children
    ensures r.Some? && c.SetLevel? ==>
      && SameUpToLevels(doc, r.value)
      && NodeAt(r.value, c.at).value.level == Some(c.level)
    ensures r.Some? && c.ToParagraph? ==>
      var n := NodeAt(r.value, c.at).value;
      n.kind == ParagraphType && n.level.None? && n.ordered.None?
  {
    match c
    case Unwrap(p) => UnwrapAt(doc, p)
    case SetLevel(p, k) =>
      (match NodeAt(doc, p)
       case Some(Element(t, _, o, cs)) =>
         var n := Element(t, Some(k), o, cs);
         SameUpToLevelsRefl(cs);
         UpdateAtSameUpToLevels(doc, p, n);
         UpdateAtLeaves(doc, p, n);
         Some(UpdateAt(doc, p, n))
       case _ => None)
    case ToParagraph(p) =>
      (match NodeAt(doc, p)
       case Some(Element(_, _, _, cs)) =>
         var n := Element(ParagraphType, None, None, cs);
         UpdateAtLeaves(doc, p, n);
         UpdateAtEditsOnlyAt(doc, p, n);
         Some(UpdateAt(doc, p, n))
       case _ => None)
  }

  /** Where a tree edit acts: a level or paragraph edit changes only the node
      it addresses, an unwrap only splices its element's children into the parent. */
  lemma ApplyFrame(doc: seq<Node>, c: Command)
    requires c.IsTreeEdit() && Apply(doc, c).Some?
    ensures !c.Unwrap? ==> EditedOnlyAt(doc, Apply(doc, c).value, c.at)
    ensures c.Unwrap? ==> SplicedAt(doc, Apply(doc, c).value, c.at)
  {
    var n := NodeAt(doc, c.at).value;
    match c
    case Unwrap(p) => UnwrapAtSplice(doc, p);
    case SetLevel(p, k) => UpdateAtEditsOnlyAt(doc, p, n.(level := Some(k)));
    case ToParagraph(p) => UpdateAtEditsOnlyAt(doc, p, Element(ParagraphType, None, None, n.children));
  }

  /** The effect of a batch of tree edits applied in order; `None` if one fails. */
  function ApplyAll(doc: seq<Node>, cs: seq<Command>): (r: Option<seq<Node>>)
    requires forall k :: 0 <= k < |cs| ==> cs[k].IsTreeEdit()
    ensures r.Some? ==> Leaves(r.value) == Leaves(doc)
    decreases |cs|
  {
    if |cs| == 0 then Some(doc)
    else match Apply(doc, cs[0])
      case None => None
      case Some(d) => ApplyAll(d, cs[1..])
  }
}
