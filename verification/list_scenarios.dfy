/** Concrete documents evaluated by the backward-delete handler, one per
    branch of the block-merge pre-check, and carets at offset 0 of a text
    leaf that is not the first one in its block. */
module ListScenarios {
  import opened Options
  import opened Document
  import opened Commands
  import opened ListPlugin

  function Plain(t: string): Node {
    Text(t, None, None, {})
  }

  /** A block of the given type holding one text leaf. */
  function OneLeaf(kind: string, t: string): Node {
    Element(kind, None, None, [Plain(t)])
  }

  /** A caret at offset 0 of the text leaf at `p`. */
  function CaretAtLeaf(doc: seq<Node>, p: Path): Editor {
    Editor(doc, Some(Range(Point(p, 0), Point(p, 0))))
  }

  /** A caret at the start of the text of top-level block `i`. */
  function CaretAt(doc: seq<Node>, i: nat): Editor {
    CaretAtLeaf(doc, [i, 0])
  }

  /** Two text runs, the second in bold. */
  function TwoRuns(kind: string, level: Option<int>): Node {
    Element(kind, level, None, [Plain("ab"), Text("cd", None, None, {"bold"})])
  }

  /** After a table the current block is removed outright. */
  lemma AfterTableRemovesBlock(unit: TextUnit, hoverbarKeys: set<string>)
    ensures var ed := CaretAt([OneLeaf(TableType, ""), OneLeaf(ParagraphType, "")], 1);
      Valid(ed) && DeleteBackward(ed, unit, hoverbarKeys) == [RemoveHighest]
  {
  }

  /** An empty paragraph before a table is not removed: the pre-check only
      looks at the block before the caret, and the first block has none. */
  lemma BeforeTableDelegates(unit: TextUnit, hoverbarKeys: set<string>)
    ensures var ed := CaretAt([OneLeaf(ParagraphType, ""), OneLeaf(TableType, "")], 0);
      Valid(ed) && DeleteBackward(ed, unit, hoverbarKeys) == [DeletePrevious(unit)]
  {
  }

  /** An empty paragraph after a block with a hoverbar, last in the document, merges at its own start. */
  lemma MergeAtLastBlock(unit: TextUnit)
    ensures var ed := CaretAt([OneLeaf("video", ""), OneLeaf(ParagraphType, "")], 1);
      Valid(ed) && DeleteBackward(ed, unit, {"video"}) == [MergeNodes(Point([1, 0], 0), true, false)]
  {
  }

  /** With an ordinary block after it, the merge point is the start of that next block. */
  lemma MergeAtNextBlock(unit: TextUnit)
    ensures var ed := CaretAt([OneLeaf("video", ""), OneLeaf(ParagraphType, ""), OneLeaf(ParagraphType, "x")], 1);
      Valid(ed) && DeleteBackward(ed, unit, {"video"}) == [MergeNodes(Point([2, 0], 0), true, false)]
  {
  }

  /** With a table after it, the merge point falls back to the current block. */
  lemma MergeBeforeTable(unit: TextUnit)
    ensures var ed := CaretAt([OneLeaf("video", ""), OneLeaf(ParagraphType, ""), OneLeaf(TableType, "")], 1);
      Valid(ed) && DeleteBackward(ed, unit, {"video"}) == [MergeNodes(Point([1, 0], 0), true, false)]
  {
  }

  /** An empty paragraph after a list item is not merged when list items have
      no hoverbar; outside a list item the wrapped handler runs. */
  lemma NoMergeAfterListItem(unit: TextUnit)
    ensures var ed := CaretAt([Element(ListItemType, Some(1), None, [Plain("abc")]), OneLeaf(ParagraphType, "")], 1);
      Valid(ed) && DeleteBackward(ed, unit, {"video"}) == [DeletePrevious(unit)]
  {
  }

  /** With the caret at offset 0 of a level-1 list item backward-delete lowers it to level 0. */
  lemma DemotesLevelOne(unit: TextUnit)
    ensures var ed := CaretAt([OneLeaf(ParagraphType, "x"), Element(ListItemType, Some(1), None, [Plain("abc")])], 1);
      Valid(ed) && DeleteBackward(ed, unit, {}) == [SetLevel([1], 0)]
  {
  }

  /** Offset 0 of the bold run in the middle of a level-2 list item counts as
      the item's start: backward-delete lowers the item to level 1. */
  lemma DemotesFromLaterRun(unit: TextUnit)
    ensures var ed := CaretAtLeaf([OneLeaf(ParagraphType, "x"), TwoRuns(ListItemType, Some(2))], [1, 1]);
      Valid(ed) && DeleteBackward(ed, unit, {}) == [SetLevel([1], 1)]
  {
  }

  /** The same holds for the pre-check: offset 0 of a later run in the block
      after a table removes that whole block. */
  lemma RemovesAfterTableFromLaterRun(unit: TextUnit, hoverbarKeys: set<string>)
    ensures var ed := CaretAtLeaf([OneLeaf(TableType, ""), TwoRuns(ParagraphType, None)], [1, 1]);
      Valid(ed) && DeleteBackward(ed, unit, hoverbarKeys) == [RemoveHighest]
  {
  }
}
