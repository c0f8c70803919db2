/** `withList`: the list plugin's overrides of `deleteBackward`, `handleTab`
    and `normalizeNode`. Each handler reads the editor state and returns the
    requests it makes, in order; delegating to the wrapped handler is a single
    `*Previous` request with the arguments the override received. */
module ListPlugin {
  import opened Options
  import opened Document
  import opened Commands

  /** Block types the caret must never be merged into (`BLACK_TYPE_LIST`). */
  const NonMergeableTypes: seq<string> := [TableType]

  /** A node addressed by `q` that is a list item. */
  predicate ListItemAt(nodes: seq<Node>, q: Path) {
    NodeAt(nodes, q).Some? && IsListItem(NodeAt(nodes, q).value)
  }

  /** `DomEditor.getSelectedNodeByType(editor, 'list-item')` for a caret on
      path `p`: the path of the outermost list item among the caret's
      ancestors, which `Editor.nodes` yields from the root down. */
  function FindListItem(nodes: seq<Node>, p: Path): (r: Option<Path>)
    ensures r.Some? ==> 1 <= |r.value| <= |p| && r.value == p[..|r.value|] && ListItemAt(nodes, r.value)
    ensures r.Some? ==> forall k :: 1 <= k < |r.value| ==> !ListItemAt(nodes, p[..k])
    ensures r.None? ==> forall k :: 1 <= k <= |p| ==> !ListItemAt(nodes, p[..k])
    decreases |p|
  {
    if |p| == 0 || p[0] >= |nodes| then None
    else if IsListItem(nodes[p[0]]) then Some([p[0]])
    else match nodes[p[0]]
      case Text(_, _, _, _) => None
      case Element(_, _, _, cs) =>
        NodeAtPrefixes(nodes, p);
        match FindListItem(cs, p[1..])
        case None => None
        case Some(q) =>
          assert p[1..][..|q|] == q;
          Some([p[0]] + q)
  }

  /** Below a top-level element, prefixes of `p` address what the matching
      prefixes of `p[1..]` address among its children. */
  lemma NodeAtPrefixes(nodes: seq<Node>, p: Path)
    requires |p| > 0 && p[0] < |nodes| && nodes[p[0]].Element?
    ensures NodeAt(nodes, p[..1]) == Some(nodes[p[0]])
    ensures forall k :: 2 <= k <= |p| ==> NodeAt(nodes, p[..k]) == NodeAt(nodes[p[0]].children, p[1..][..k - 1])
  {
    forall k | 2 <= k <= |p|
      ensures NodeAt(nodes, p[..k]) == NodeAt(nodes[p[0]].children, p[1..][..k - 1])
    {
      assert p[..k][1..] == p[1..][..k - 1];
    }
  }

  /** The caret is at offset 0 of top-level block `i >= 1` (`offset === 0 && pathIdx - 1 >= 0`). */
  predicate AtStartAfterFirstBlock(anchor: Point) {
    anchor.offset == 0 && |anchor.path| > 0 && anchor.path[0] >= 1
  }

  /** `(node.children[0] as BaseText).text === ''`. */
  predicate FirstChildIsEmptyText(n: Node) {
    n.Element? && |n.children| > 0 && n.children[0].Text? && n.children[0].text == ""
  }

  /** Where the pre-check merges for the caret in block `i`: the start of the
      next block, unless there is none or it is non-mergeable, then of block `i`. */
  function MergeTarget(doc: seq<Node>, i: nat): (r: Path)
    requires i < |doc|
    ensures |r| == 2 && r[1] == 0
    ensures r[0] == i + 1 <==> i + 1 < |doc| && TypeOf(doc[i + 1]) !in NonMergeableTypes
    ensures r[0] == i <==> i + 1 == |doc| || TypeOf(doc[i + 1]) in NonMergeableTypes
  {
    var next := if i + 1 < |doc| then Some(doc[i + 1]) else None;
    match next
    case Some(n) => if TypeOf(n) in NonMergeableTypes then [i, 0] else [i + 1, 0]
    case None => [i, 0]
  }

  /** The top-level index of the selection's anchor; defined whenever the selection is. */
  function AnchorBlock(ed: Editor): nat
    requires Valid(ed) && ed.selection.Some?
  {
    ed.selection.value.anchor.path[0]
  }

  /** deleteBackward removes the whole block after a non-mergeable one. */
  predicate RemovesAfterNonMergeable(ed: Editor)
    requires Valid(ed)
  {
    && ed.selection.Some?
    && AtStartAfterFirstBlock(ed.selection.value.anchor)
    && TypeOf(ed.doc[AnchorBlock(ed) - 1]) in NonMergeableTypes
  }

  /** deleteBackward merges: an empty block without a hoverbar after a block with one. */
  predicate MergesEmptyBlock(ed: Editor, hoverbarKeys: set<string>)
    requires Valid(ed)
  {
    && ed.selection.Some?
    && AtStartAfterFirstBlock(ed.selection.value.anchor)
    && TypeOf(ed.doc[AnchorBlock(ed) - 1]) !in NonMergeableTypes
    && TypeOf(ed.doc[AnchorBlock(ed)]) !in hoverbarKeys
    && TypeOf(ed.doc[AnchorBlock(ed) - 1]) in hoverbarKeys
    && FirstChildIsEmptyText(ed.doc[AnchorBlock(ed)])
  }

  /** A collapsed caret at offset 0 of any text leaf inside a list item. */
  predicate CaretAtOffsetZeroInListItem(ed: Editor) {
    && ed.selection.Some?
    && ed.selection.value.IsCollapsed()
    && ed.selection.value.focus.offset == 0
    && FindListItem(ed.doc, ed.selection.value.focus.path).Some?
  }

  /** The list item holding the caret. */
  function CaretItem(ed: Editor): (n: Node)
    requires CaretAtOffsetZeroInListItem(ed)
    ensures IsListItem(n)
  {
    NodeAt(ed.doc, FindListItem(ed.doc, ed.selection.value.focus.path).value).value
  }

  /** The block-merge pre-check; `None` falls through to the list handling. */
  function MergePreCheck(ed: Editor, hoverbarKeys: set<string>): (r: Option<Command>)
    requires Valid(ed) && ed.selection.Some?
    ensures r == Some(RemoveHighest) <==> RemovesAfterNonMergeable(ed)
    ensures (r.Some? && r.value.MergeNodes?) <==> MergesEmptyBlock(ed, hoverbarKeys)
    ensures MergesEmptyBlock(ed, hoverbarKeys) ==>
      r == Some(MergeNodes(Point(MergeTarget(ed.doc, AnchorBlock(ed)), 0), true, false))
    ensures r.None? <==> !RemovesAfterNonMergeable(ed) && !MergesEmptyBlock(ed, hoverbarKeys)
  {
    var anchor := ed.selection.value.anchor;
    if AtStartAfterFirstBlock(anchor) then
      var i := anchor.path[0];
      var node, preNode := ed.doc[i], ed.doc[i - 1];
      if TypeOf(preNode) in NonMergeableTypes then Some(RemoveHighest)
      else if TypeOf(node) !in hoverbarKeys && TypeOf(preNode) in hoverbarKeys && FirstChildIsEmptyText(node) then
        Some(MergeNodes(Point(MergeTarget(ed.doc, i), 0), true, false))
      else None
    else None
  }

  /** The override of `deleteBackward(unit)`. */
  function DeleteBackward(ed: Editor, unit: TextUnit, hoverbarKeys: set<string>): (r: seq<Command>)
    requires Valid(ed)
    ensures |r| == 1
    ensures ed.selection.None? ==> r == [DeletePrevious(unit)]
    ensures r[0].RemoveHighest? <==> RemovesAfterNonMergeable(ed)
    ensures r[0].MergeNodes? <==> MergesEmptyBlock(ed, hoverbarKeys)
    ensures r[0].MergeNodes? ==>
      r[0] == MergeNodes(Point(MergeTarget(ed.doc, AnchorBlock(ed)), 0), true, false)
    ensures r[0].SetLevel? <==>
      && !RemovesAfterNonMergeable(ed) && !MergesEmptyBlock(ed, hoverbarKeys)
      && CaretAtOffsetZeroInListItem(ed) && LevelOf(CaretItem(ed)) > 0
    ensures r[0].ToParagraph? <==>
      && !RemovesAfterNonMergeable(ed) && !MergesEmptyBlock(ed, hoverbarKeys)
      && CaretAtOffsetZeroInListItem(ed) && LevelOf(CaretItem(ed)) <= 0
    ensures r[0].SetLevel? ==>
      && r[0].at == FindListItem(ed.doc, ed.selection.value.focus.path).value
      && r[0].level == LevelOf(CaretItem(ed)) - 1
    ensures r[0].ToParagraph? ==> r[0].at == FindListItem(ed.doc, ed.selection.value.focus.path).value
    ensures r == [DeletePrevious(unit)] <==>
      !RemovesAfterNonMergeable(ed) && !MergesEmptyBlock(ed, hoverbarKeys) && !CaretAtOffsetZeroInListItem(ed)
    ensures r[0].DeletePrevious? || r[0].RemoveHighest? || r[0].MergeNodes? || r[0].SetLevel? || r[0].ToParagraph?
  {
    match ed.selection
    case None => [DeletePrevious(unit)]
    case Some(sel) =>
      var pre := MergePreCheck(ed, hoverbarKeys);
      if pre.Some? then [pre.value]
      else if !sel.IsCollapsed() then [DeletePrevious(unit)]
      else match FindListItem(ed.doc, sel.focus.path)
        case None => [DeletePrevious(unit)]
        case Some(p) =>
          if sel.focus.offset == 0 then
            var level := LevelOf(NodeAt(ed.doc, p).value);
            if level > 0 then [SetLevel(p, level - 1)] else [ToParagraph(p)]
          else [DeletePrevious(unit)]
  }

  /** The indices `lo`, `lo + 1`, ..., `hi`, in increasing order. */
  function Interval(lo: nat, hi: nat): (r: seq<nat>)
    ensures forall i :: i in r <==> lo <= i <= hi
    ensures forall j, k :: 0 <= j < k < |r| ==> r[j] < r[k]
    ensures |r| > 0 ==> r[0] == lo
    decreases hi + 1 - lo
  {
    if lo > hi then [] else [lo] + Interval(lo + 1, hi)
  }

  /** `getTopSelectedElemsBySelection`: the indices of the top-level blocks
      the range touches, in document order. */
  function TopSelected(doc: seq<Node>, sel: Range): (r: seq<nat>)
    requires AddressesText(doc, sel.anchor) && AddressesText(doc, sel.focus)
    ensures forall i :: i in r <==>
      (sel.anchor.path[0] <= i <= sel.focus.path[0] || sel.focus.path[0] <= i <= sel.anchor.path[0])
    ensures forall j, k :: 0 <= j < k < |r| ==> r[j] < r[k]
    ensures forall k :: 0 <= k < |r| ==> r[k] < |doc|
  {
    var a, f := sel.anchor.path[0], sel.focus.path[0];
    var r := if a <= f then Interval(a, f) else Interval(f, a);
    assert forall k :: 0 <= k < |r| ==> r[k] in r;
    r
  }

  /** Every index in `top` addresses a list item. */
  predicate AllListItems(doc: seq<Node>, top: seq<nat>)
    requires forall k :: 0 <= k < |top| ==> top[k] < |doc|
  {
    forall k :: 0 <= k < |top| ==> IsListItem(doc[top[k]])
  }

  /** The positions among the first `n` of `top` whose blocks are list items. */
  function ListItemPositions(doc: seq<Node>, top: seq<nat>, n: nat): set<nat>
    requires n <= |top|
    requires forall k :: 0 <= k < |top| ==> top[k] < |doc|
  {
    set k: nat | k < n && IsListItem(doc[top[k]])
  }

  /** Extending the prefix by one position adds that position exactly when its block is a list item. */
  lemma ListItemPositionsStep(doc: seq<Node>, top: seq<nat>, n: nat)
    requires 0 < n <= |top|
    requires forall k :: 0 <= k < |top| ==> top[k] < |doc|
    ensures ListItemPositions(doc, top, n) ==
      if IsListItem(doc[top[n - 1]]) then ListItemPositions(doc, top, n - 1) + {n - 1}
      else ListItemPositions(doc, top, n - 1)
    ensures n - 1 !in ListItemPositions(doc, top, n - 1)
  {
  }

  /** At most `n` of the first `n` positions hold list items, and all of them
      exactly when each of those blocks is one. */
  lemma {:induction false} ListItemPositionsBound(doc: seq<Node>, top: seq<nat>, n: nat)
    requires n <= |top|
    requires forall k :: 0 <= k < |top| ==> top[k] < |doc|
    ensures |ListItemPositions(doc, top, n)| <= n
    ensures |ListItemPositions(doc, top, n)| == n <==> forall k :: 0 <= k < n ==> IsListItem(doc[top[k]])
    decreases n
  {
    if n == 0 {
      assert ListItemPositions(doc, top, 0) == {};
    } else {
      ListItemPositionsBound(doc, top, n - 1);
      ListItemPositionsStep(doc, top, n);
      var s, s' := ListItemPositions(doc, top, n - 1), ListItemPositions(doc, top, n);
      if IsListItem(doc[top[n - 1]]) {
        assert |s'| == |s| + 1;
      } else {
        assert |s'| == |s|;
        assert !IsListItem(doc[top[n - 1]]);
      }
    }
  }

  /** `listItemNum`: how many of the blocks in `top` are list items. */
  function CountListItems(doc: seq<Node>, top: seq<nat>): (c: nat)
    requires forall k :: 0 <= k < |top| ==> top[k] < |doc|
    ensures c <= |top|
    ensures c == |top| <==> AllListItems(doc, top)
  {
    ListItemPositionsBound(doc, top, |top|);
    |ListItemPositions(doc, top, |top|)|
  }

  /** The two counters the classification loop of handleTab keeps. */
  datatype Tally = Tally(listItemNum: nat, hasOtherElem: bool)

  /** The classification loop of handleTab (lines 158-166). */
  method CountTopSelected(doc: seq<Node>, top: seq<nat>) returns (t: Tally)
    requires forall k :: 0 <= k < |top| ==> top[k] < |doc|
    ensures t.listItemNum == CountListItems(doc, top)
    ensures t.hasOtherElem <==> !AllListItems(doc, top)
  {
    var listItemNum, hasOtherElem := 0, false;
    var k := 0;
    while k < |top|
      invariant 0 <= k <= |top|
      invariant listItemNum == |ListItemPositions(doc, top, k)|
      invariant hasOtherElem <==> exists j :: 0 <= j < k && !IsListItem(doc[top[j]])
    {
      if IsListItem(doc[top[k]]) {
        assert ListItemPositions(doc, top, k + 1) == ListItemPositions(doc, top, k) + {k};
        listItemNum := listItemNum + 1;
      } else {
        assert ListItemPositions(doc, top, k + 1) == ListItemPositions(doc, top, k);
        hasOtherElem := true;
      }
      k := k + 1;
    }
    t := Tally(listItemNum, hasOtherElem);
  }

  /** handleTab indents every block of an expanded selection. */
  predicate IndentsSelection(ed: Editor)
    requires Valid(ed)
  {
    && ed.selection.Some?
    && !ed.selection.value.IsCollapsed()
    && |TopSelected(ed.doc, ed.selection.value)| >= 2
    && AllListItems(ed.doc, TopSelected(ed.doc, ed.selection.value))
  }

  /** Raises the level of each block in `top`, each addressed by its own path,
      by one over the level it had when the batch started. */
  function IndentEach(doc: seq<Node>, top: seq<nat>): (r: seq<Command>)
    requires forall k :: 0 <= k < |top| ==> top[k] < |doc|
  {
    seq(|top|, k requires 0 <= k < |top| => SetLevel([top[k]], LevelOf(doc[top[k]]) + 1))
  }

  /** The override of `handleTab()`. */
  function HandleTab(ed: Editor): (r: seq<Command>)
    requires Valid(ed)
    ensures ed.selection.None? ==> r == [TabPrevious]
    ensures CaretAtOffsetZeroInListItem(ed) ==>
      r == [SetLevel(FindListItem(ed.doc, ed.selection.value.focus.path).value, LevelOf(CaretItem(ed)) + 1)]
    ensures IndentsSelection(ed) ==>
      var top := TopSelected(ed.doc, ed.selection.value);
      && |r| == |top|
      && forall k :: 0 <= k < |r| ==> r[k] == SetLevel([top[k]], LevelOf(ed.doc[top[k]]) + 1)
    ensures r == [TabPrevious] <==> !CaretAtOffsetZeroInListItem(ed) && !IndentsSelection(ed)
    ensures r != [TabPrevious] ==> forall k :: 0 <= k < |r| ==> r[k].SetLevel?
  {
    match ed.selection
    case None => [TabPrevious]
    case Some(sel) =>
      if sel.IsCollapsed() then
        match FindListItem(ed.doc, sel.focus.path)
        case None => [TabPrevious]
        case Some(p) =>
          if sel.focus.offset == 0 then [SetLevel(p, LevelOf(NodeAt(ed.doc, p).value) + 1)]
          else [TabPrevious]
      else
        var top := TopSelected(ed.doc, sel);
        var listItemNum := CountListItems(ed.doc, top);
        var hasOtherElem := !AllListItems(ed.doc, top);
        if hasOtherElem || listItemNum <= 1 then [TabPrevious]
        else IndentEach(ed.doc, top)
  }

  /** The list types of documents saved before list items carried a level. */
  predicate IsLegacyList(n: Node) {
    TypeOf(n) == BulletedListType || TypeOf(n) == NumberedListType
  }

  /** The override of `normalizeNode([node, path])`. */
  function NormalizeNode(node: Node, path: Path): (r: seq<Command>)
    ensures |r| >= 1 && r[|r| - 1] == NormalizePrevious(node, path)
    ensures forall k :: 0 <= k < |r| - 1 ==> r[k] == Unwrap(path)
    ensures |r| == 2 <==> IsLegacyList(node)
    ensures |r| <= 2
  {
    var unwrap := if IsLegacyList(node) then [Unwrap(path)] else [];
    unwrap + [NormalizePrevious(node, path)]
  }
}
