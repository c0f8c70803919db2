/** What the list plugin's requests do to the document: demotion, conversion
    to a paragraph, indentation of a caret or of a multi-block selection, and
    the unwrapping of legacy list containers. */
module ListEffects {
  import opened Options
  import opened Document
  import opened Commands
  import opened ListPlugin

  /** A block raised one level over the level it has. */
  function Bump(n: Node): (b: Node)
    requires n.Element?
    ensures SameNodeUpToLevel(n, b)
    ensures LevelOf(b) == LevelOf(n) + 1
  {
    SameUpToLevelsRefl(n.children);
    n.(level := Some(LevelOf(n) + 1))
  }

  /** Kind, list-item-ness and the empty-first-text test ignore levels. */
  lemma SameNodeFacts(x: Node, y: Node)
    requires SameNodeUpToLevel(x, y)
    ensures TypeOf(x) == TypeOf(y)
    ensures IsListItem(x) <==> IsListItem(y)
    ensures FirstChildIsEmptyText(x) <==> FirstChildIsEmptyText(y)
    ensures x.Element? <==> y.Element?
  {
    if x.Element? && |x.children| > 0 {
      assert SameNodeUpToLevel(x.children[0], y.children[0]);
    }
  }

  /** The list item that holds a caret does not depend on levels. */
  lemma FindListItemIgnoresLevels(a: seq<Node>, b: seq<Node>, p: Path)
    requires SameUpToLevels(a, b)
    ensures FindListItem(a, p) == FindListItem(b, p)
  {
    forall k | 1 <= k <= |p|
      ensures ListItemAt(a, p[..k]) <==> ListItemAt(b, p[..k])
    {
      SameUpToLevelsNodeAt(a, b, p[..k]);
      if NodeAt(a, p[..k]).Some? {
        SameNodeFacts(NodeAt(a, p[..k]).value, NodeAt(b, p[..k]).value);
      }
    }
  }

  /** Top-level blocks equal up to levels agree on everything the pre-check reads. */
  lemma LevelEditKeepsBlocks(a: seq<Node>, b: seq<Node>)
    requires SameUpToLevels(a, b)
    ensures forall i :: 0 <= i < |b| ==> (b[i].Element? <==> a[i].Element?)
    ensures forall i :: 0 <= i < |b| ==> TypeOf(b[i]) == TypeOf(a[i])
    ensures forall i :: 0 <= i < |b| ==> FirstChildIsEmptyText(b[i]) == FirstChildIsEmptyText(a[i])
  {
    forall i | 0 <= i < |b|
      ensures (b[i].Element? <==> a[i].Element?) && TypeOf(b[i]) == TypeOf(a[i])
      ensures FirstChildIsEmptyText(b[i]) == FirstChildIsEmptyText(a[i])
    {
      SameNodeFacts(a[i], b[i]);
    }
  }

  /** Changing levels only keeps the editor valid and leaves every decision of
      deleteBackward that does not read a level unchanged. */
  lemma LevelEditKeepsDecisions(ed: Editor, d: seq<Node>, hoverbarKeys: set<string>)
    requires Valid(ed)
    requires SameUpToLevels(ed.doc, d)
    ensures Valid(Editor(d, ed.selection))
    ensures RemovesAfterNonMergeable(Editor(d, ed.selection)) == RemovesAfterNonMergeable(ed)
    ensures MergesEmptyBlock(Editor(d, ed.selection), hoverbarKeys) == MergesEmptyBlock(ed, hoverbarKeys)
    ensures CaretAtOffsetZeroInListItem(Editor(d, ed.selection)) == CaretAtOffsetZeroInListItem(ed)
    ensures ed.selection.Some? ==>
      FindListItem(d, ed.selection.value.focus.path) == FindListItem(ed.doc, ed.selection.value.focus.path)
  {
    LevelEditKeepsBlocks(ed.doc, d);
    if ed.selection.Some? {
      var sel := ed.selection.value;
      SameUpToLevelsNodeAt(ed.doc, d, sel.anchor.path);
      SameUpToLevelsNodeAt(ed.doc, d, sel.focus.path);
      FindListItemIgnoresLevels(ed.doc, d, sel.focus.path);
    }
  }

  /** Backward-delete with the caret at offset 0 of a text leaf inside a list
      item with level k > 0 sets the level to exactly k - 1; no other node
      changes, and the caret is still at offset 0 inside the same item, so a
      further backward-delete keeps lowering it. */
  lemma DeleteDemotes(ed: Editor, unit: TextUnit, hoverbarKeys: set<string>)
    requires Valid(ed)
    requires !RemovesAfterNonMergeable(ed) && !MergesEmptyBlock(ed, hoverbarKeys)
    requires CaretAtOffsetZeroInListItem(ed) && LevelOf(CaretItem(ed)) > 0
    ensures var c := DeleteBackward(ed, unit, hoverbarKeys)[0];
      && c.SetLevel?
      && Apply(ed.doc, c).Some?
      && var d := Apply(ed.doc, c).value;
      && SameUpToLevels(ed.doc, d)
      && Leaves(d) == Leaves(ed.doc)
      && NodeAt(d, c.at) == Some(CaretItem(ed).(level := Some(LevelOf(CaretItem(ed)) - 1)))
      && Valid(Editor(d, ed.selection))
      && CaretAtOffsetZeroInListItem(Editor(d, ed.selection))
      && CaretItem(Editor(d, ed.selection)) == NodeAt(d, c.at).value
      && EditedOnlyAt(ed.doc, d, c.at)
  {
    DemotionKeepsCaret(ed, unit, hoverbarKeys);
    ApplyFrame(ed.doc, DeleteBackward(ed, unit, hoverbarKeys)[0]);
  }

  /** The demotion keeps the caret at offset 0 inside the same item. */
  lemma DemotionKeepsCaret(ed: Editor, unit: TextUnit, hoverbarKeys: set<string>)
    requires Valid(ed)
    requires !RemovesAfterNonMergeable(ed) && !MergesEmptyBlock(ed, hoverbarKeys)
    requires CaretAtOffsetZeroInListItem(ed) && LevelOf(CaretItem(ed)) > 0
    ensures var c := DeleteBackward(ed, unit, hoverbarKeys)[0];
      && c.SetLevel?
      && Apply(ed.doc, c).Some?
      && var d := Apply(ed.doc, c).value;
      && Valid(Editor(d, ed.selection))
      && CaretAtOffsetZeroInListItem(Editor(d, ed.selection))
      && CaretItem(Editor(d, ed.selection)) == NodeAt(d, c.at).value
  {
    var c := DeleteBackward(ed, unit, hoverbarKeys)[0];
    LevelEditKeepsDecisions(ed, Apply(ed.doc, c).value, hoverbarKeys);
  }

  /** Backward-delete with the caret at offset 0 of a text leaf inside a list
      item of level 0 turns the item into a paragraph without `ordered` or
      `level`, keeping its children; no other node changes. */
  lemma DeleteConvertsToParagraph(ed: Editor, unit: TextUnit, hoverbarKeys: set<string>)
    requires Valid(ed)
    requires !RemovesAfterNonMergeable(ed) && !MergesEmptyBlock(ed, hoverbarKeys)
    requires CaretAtOffsetZeroInListItem(ed) && LevelOf(CaretItem(ed)) <= 0
    ensures var c := DeleteBackward(ed, unit, hoverbarKeys)[0];
      && c.ToParagraph?
      && Apply(ed.doc, c).Some?
      && var d := Apply(ed.doc, c).value;
      && |d| == |ed.doc|
      && (forall j :: 0 <= j < |d| && j != c.at[0] ==> d[j] == ed.doc[j])
      && Leaves(d) == Leaves(ed.doc)
      && NodeAt(d, c.at) == Some(Element(ParagraphType, None, None, CaretItem(ed).children))
      && EditedOnlyAt(ed.doc, d, c.at)
  {
    ApplyFrame(ed.doc, DeleteBackward(ed, unit, hoverbarKeys)[0]);
  }

  /** Tab with the caret at offset 0 of a text leaf inside a list item raises
      the item's level by exactly one (a missing level counts as 0); no other
      node changes and the caret is still at offset 0 inside the same item. */
  lemma TabIndentsCaret(ed: Editor)
    requires Valid(ed)
    requires CaretAtOffsetZeroInListItem(ed)
    ensures var c := HandleTab(ed)[0];
      && Apply(ed.doc, c).Some?
      && var d := Apply(ed.doc, c).value;
      && SameUpToLevels(ed.doc, d)
      && NodeAt(d, c.at) == Some(Bump(CaretItem(ed)))
      && EditedOnlyAt(ed.doc, d, c.at)
      && Valid(Editor(d, ed.selection))
      && CaretAtOffsetZeroInListItem(Editor(d, ed.selection))
      && CaretItem(Editor(d, ed.selection)) == Bump(CaretItem(ed))
  {
    IndentKeepsCaret(ed);
    ApplyFrame(ed.doc, HandleTab(ed)[0]);
  }

  /** The indent keeps the caret at offset 0 inside the same item. */
  lemma IndentKeepsCaret(ed: Editor)
    requires Valid(ed)
    requires CaretAtOffsetZeroInListItem(ed)
    ensures var c := HandleTab(ed)[0];
      && Apply(ed.doc, c).Some?
      && var d := Apply(ed.doc, c).value;
      && NodeAt(d, c.at) == Some(Bump(CaretItem(ed)))
      && Valid(Editor(d, ed.selection))
      && CaretAtOffsetZeroInListItem(Editor(d, ed.selection))
      && CaretItem(Editor(d, ed.selection)) == Bump(CaretItem(ed))
  {
    LevelEditKeepsDecisions(ed, Apply(ed.doc, HandleTab(ed)[0]).value, {});
  }

  /** Applying the indent requests for `top`, computed from the snapshot
      `doc0`, to a document whose blocks in `top` are still as in `doc0`,
      bumps exactly those blocks. */
  lemma {:induction false} IndentEachEffect(d: seq<Node>, doc0: seq<Node>, top: seq<nat>)
    requires |d| == |doc0|
    requires forall k :: 0 <= k < |top| ==> top[k] < |doc0|
    requires forall j, k :: 0 <= j < k < |top| ==> top[j] < top[k]
    requires forall k :: 0 <= k < |top| ==> d[top[k]] == doc0[top[k]] && doc0[top[k]].Element?
    ensures var r := ApplyAll(d, IndentEach(doc0, top));
      && r.Some?
      && |r.value| == |d|
      && forall i :: 0 <= i < |d| ==> r.value[i] == if i in top then Bump(doc0[i]) else d[i]
    decreases |top|
  {
    var cs := IndentEach(doc0, top);
    if |top| > 0 {
      var i0 := top[0];
      var d1 := d[i0 := Bump(doc0[i0])];
      assert Apply(d, cs[0]) == Some(d1);
      assert cs[1..] == IndentEach(doc0, top[1..]);
      IndentEachEffect(d1, doc0, top[1..]);
      forall i | 0 <= i < |d|
        ensures (i in top) <==> (i == i0 || i in top[1..])
      {
        assert top == [i0] + top[1..];
      }
    }
  }

  /** Tab over a selection of at least two top-level list items and nothing
      else raises each selected item by one, and leaves every other block alone. */
  lemma TabIndentsSelection(ed: Editor)
    requires Valid(ed)
    requires IndentsSelection(ed)
    ensures var top := TopSelected(ed.doc, ed.selection.value);
      var r := ApplyAll(ed.doc, HandleTab(ed));
      && r.Some?
      && |r.value| == |ed.doc|
      && forall i :: 0 <= i < |ed.doc| ==>
           r.value[i] == if i in top then Bump(ed.doc[i]) else ed.doc[i]
  {
    var top := TopSelected(ed.doc, ed.selection.value);
    assert HandleTab(ed) == IndentEach(ed.doc, top);
    IndentEachEffect(ed.doc, ed.doc, top);
  }

  /** Tab then backward-delete with the caret at offset 0 inside a list item restores its level:
      exactly the original document when the level was present, and the same
      document with the missing level written as 0 otherwise. */
  lemma TabThenDeleteRestores(ed: Editor, unit: TextUnit, hoverbarKeys: set<string>)
    requires Valid(ed)
    requires !RemovesAfterNonMergeable(ed) && !MergesEmptyBlock(ed, hoverbarKeys)
    requires CaretAtOffsetZeroInListItem(ed) && LevelOf(CaretItem(ed)) >= 0
    ensures var d1 := Apply(ed.doc, HandleTab(ed)[0]);
      && d1.Some?
      && var ed1 := Editor(d1.value, ed.selection);
      && Valid(ed1)
      && var d2 := Apply(d1.value, DeleteBackward(ed1, unit, hoverbarKeys)[0]);
      && d2.Some?
      && (CaretItem(ed).level.Some? ==> d2.value == ed.doc)
      && (CaretItem(ed).level.None? ==>
            d2.value == UpdateAt(ed.doc, FindListItem(ed.doc, ed.selection.value.focus.path).value, CaretItem(ed).(level := Some(0))))
  {
    var sel := ed.selection.value;
    var p := FindListItem(ed.doc, sel.focus.path).value;
    var item := CaretItem(ed);
    var up := Bump(item);
    var d1 := UpdateAt(ed.doc, p, up);
    assert Apply(ed.doc, HandleTab(ed)[0]) == Some(d1);
    UpdateAtSameUpToLevels(ed.doc, p, up);
    LevelEditKeepsDecisions(ed, d1, hoverbarKeys);
    var ed1 := Editor(d1, ed.selection);
    assert CaretItem(ed1) == up;
    var down := item.(level := Some(LevelOf(item)));
    assert DeleteBackward(ed1, unit, hoverbarKeys) == [SetLevel(p, LevelOf(item))];
    assert Apply(d1, SetLevel(p, LevelOf(item))) == Some(UpdateAt(d1, p, down));
    UpdateAtTwice(ed.doc, p, up, down);
    if item.level.Some? {
      assert down == item;
      UpdateAtSelf(ed.doc, p);
    }
  }

  /** Normalising a legacy list container unwraps it, at any depth: its
      children take its place, in order, among its parent's children, the rest
      of the tree is kept and so is the document's content; the wrapped
      normaliser still runs on the same entry. */
  lemma NormalizeUnwrapsLegacy(doc: seq<Node>, node: Node, path: Path)
    requires NodeAt(doc, path) == Some(node)
    requires IsLegacyList(node)
    ensures var cs := NormalizeNode(node, path);
      && cs == [Unwrap(path), NormalizePrevious(node, path)]
      && Apply(doc, cs[0]).Some?
      && Leaves(Apply(doc, cs[0]).value) == Leaves(doc)
      && SplicedAt(doc, Apply(doc, cs[0]).value, path)
      && (|path| == 1 ==>
            Apply(doc, cs[0]).value == doc[..path[0]] + node.children + doc[path[0] + 1..])
  {
    var r := Apply(doc, Unwrap(path)).value;
    ApplyFrame(doc, Unwrap(path));
    if |path| == 1 {
      var i, n := path[0], |node.children|;
      assert r == r[..i] + r[i..i + n] + r[i + n..];
    }
  }

  /** Normalising any other node requests no tree edit: only the wrapped normaliser runs. */
  lemma NormalizeLeavesOthers(node: Node, path: Path)
    requires !IsLegacyList(node)
    ensures NormalizeNode(node, path) == [NormalizePrevious(node, path)]
  {
  }
}
