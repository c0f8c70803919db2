# wangEditor list plugin and font style filter, in Dafny

This project models two pieces of wangEditor, a rich-text editor built on Slate.

The first is `withList`, the plugin of the list module. It overrides three editor commands:

- `deleteBackward`: lowers a list item's level, turns a level-0 list item into a paragraph, or first runs a block-merge pre-check;
- `handleTab`: raises the level of the list item at the caret, or of every list item in a multi-block selection;
- `normalizeNode`: unwraps the `bulleted-list` / `numbered-list` containers of old documents.

List depth is a flat `level` attribute on a top-level `list-item`; a missing level reads as 0. A level change never reshapes the tree.

The second is `parseStyleHtml` of the font-size/font-family module. It copies a `font-size` or `font-family` style value onto a text node only when the value is non-empty and appears in the menu's configured list.

Each handler is a pure function from the editor state (blocks and selection) to the requests it makes, in order (`Commands.Command`). Delegating to the wrapped handler is the single request `DeletePrevious(unit)`, `TabPrevious` or `NormalizePrevious(node, path)`, carrying the arguments the override received. Slate's `removeNodes({ mode: 'highest' })` and `mergeNodes` are recorded with their arguments and not executed. The level change, the paragraph conversion and the unwrap are executed on the document (`Commands.Apply`). The lemmas in `ListEffects` prove what those requests do to it.

Files:

- `options.dfy`: the `Option` type.
- `document.dfy`: nodes, paths, selections, node lookup and update, and the text content of a forest. It also defines "equal up to levels".
- `commands.dfy`: the requests and the effect of the tree edits among them.
- `list_plugin.dfy`: the three overrides and `getTopSelectedElemsBySelection`.
- `list_effects.dfy`: what the requests do to the document, including the tab-then-delete round trip.
- `list_scenarios.dfy`: concrete documents, one per branch of the merge pre-check.
- `font_style.dfy`: `parseStyleHtml`.

Order of the checks in `deleteBackward` (`packages/list-module/src/module/plugin.ts`):

- Only a null selection is handled before the merge pre-check (line 29). The pre-check (lines 34-96) comes before the expanded-selection test (line 98), and it reads the anchor's top-level index and offset.
- The merge guard reads the editor's `hoverbarKeys` for the current block's type and the previous block's type (lines 77-79). The model takes the hoverbar types as a set.
- The pre-check needs the anchor's top-level index to be 1 or more (line 42). So an empty paragraph *before* a table, with the caret at its start, is not removed; the wrapped handler runs (`ListScenarios.BeforeTableDelegates`). An empty paragraph *after* a table is removed (`ListScenarios.AfterTableRemovesBlock`).
- The offset tests (lines 42 and 110) read the offset within the text leaf that holds the point. Offset 0 of a later text run in a block counts as well (`ListScenarios.DemotesFromLaterRun`, `ListScenarios.RemovesAfterTableFromLaterRun`).

## Model

| member | source | states |
|---|---|---|
| ListPlugin.DeleteBackward | packages/list-module/src/module/plugin.ts:27-129 | Exactly one request. A null selection delegates. After a table, the request is a removal of the highest blocks at the selection. An empty block without a hoverbar after one with a hoverbar is merged: offset 0, hanging, no voids. With a collapsed caret at offset 0 of a text leaf inside a list item of level k > 0 the level is set to k-1; at level 0 or below the item becomes a paragraph. The handler delegates, passing `unit` on, exactly when none of these cases holds. |
| ListPlugin.MergePreCheck | packages/list-module/src/module/plugin.ts:34-96 | The request is a removal of the highest blocks exactly when the anchor is at offset 0 of a block after a table. It is a merge exactly when that block has no hoverbar, the one before has one and the block's first text is empty; the merge is at `MergeTarget`, offset 0, hanging, no voids. Otherwise there is no request and the handler goes on. |
| ListPlugin.MergeTarget | packages/list-module/src/module/plugin.ts:59-75 | The merge point is `[i+1, 0]` exactly when a next block exists and is not a table, and `[i, 0]` exactly when it is missing or a table. |
| ListPlugin.FindListItem | packages/list-module/src/module/plugin.ts:103-108 | The result is the shortest prefix of the caret path that addresses a list item. No shorter prefix does. `None` exactly when no prefix does. |
| ListPlugin.TopSelected | packages/list-module/src/module/plugin.ts:15-20 | The top-level blocks the range touches: every index between the two ends' first indices, whichever end comes first, in increasing order and inside the document. |
| ListPlugin.CountListItems | packages/list-module/src/module/plugin.ts:158-166 | The number of selected blocks that are list items is at most the number of selected blocks. It equals that number exactly when every selected block is a list item. |
| ListPlugin.ListItemPositionsBound | packages/list-module/src/module/plugin.ts:158-168 | Among the first n selected blocks at most n are list items, and exactly n when each of them is one. So after the loop `listItemNum` equals the number of selected blocks exactly when `hasOtherElem` is false. |
| ListPlugin.CountTopSelected | packages/list-module/src/module/plugin.ts:158-166 | The counting loop returns both counters. `listItemNum` is the number of selected list items; `hasOtherElem` holds exactly when some selected block is not a list item. |
| ListPlugin.HandleTab | packages/list-module/src/module/plugin.ts:132-185 | A null selection delegates. A collapsed caret at offset 0 of a text leaf inside a list item sets that item's level to its old level + 1 (missing = 0). An expanded selection of at least two top-level blocks, all list items, raises each one by one. The handler delegates exactly when neither case holds; otherwise it issues only level changes. |
| ListPlugin.NormalizeNode | packages/list-module/src/module/plugin.ts:188-197 | The last request is always the wrapped normaliser on the same node and path. Any request before it is an unwrap at that path. There are two requests exactly when the node is a legacy list container. |
| Commands.UnwrapAt | packages/list-module/src/module/plugin.ts:192 | Defined exactly when the path addresses an element. The document's text leaves keep their order. At top level the children replace the container in order at its index, and blocks before and after keep their places. Deeper down the top-level blocks keep their number and the untouched ones stay. |
| Commands.UnwrapAtSplice | packages/list-module/src/module/plugin.ts:192 | At any depth, the parent's children become those before the container, then the container's children in order, then those after it. Every node off the path to the parent is the same node, and every element on that path keeps its type, level and `ordered`. |
| Commands.Apply | packages/list-module/src/module/plugin.ts:115-122 | A level change or paragraph conversion succeeds exactly when the path addresses an element. It keeps the text leaves, the block count, the other top-level blocks and the node's children. A level change alters only levels and writes the given level. A paragraph conversion yields type `paragraph` with no `level` and no `ordered`. |
| Document.UpdateAtFrame | packages/list-module/src/module/plugin.ts:115-122 | Writing a node at a path leaves every node off that path as it was. Each element above the path keeps its type, level and `ordered`. If the new node keeps the old children, every node below the path is unchanged too. |
| Commands.ApplyFrame | packages/list-module/src/module/plugin.ts:115-122 | A level change or paragraph conversion changes only the node it addresses: every node neither at that path nor above it is the same node, and the elements above keep their attributes. An unwrap changes only what the splice describes. |
| Commands.ApplyAll | packages/list-module/src/module/plugin.ts:175-179 | A batch of tree edits applied in order keeps the document's text leaves. |
| ListEffects.DeleteDemotes | packages/list-module/src/module/plugin.ts:110-115 | With the caret at offset 0 of a text leaf inside a list item of level k > 0, backward-delete writes level k-1 on that item. The item is otherwise unchanged and no other node changes: every node neither at the item nor above it is the same node, and the elements above it keep their attributes. The text is kept. The caret stays at offset 0 inside that item, so a further backward-delete keeps lowering it. |
| ListEffects.DeleteConvertsToParagraph | packages/list-module/src/module/plugin.ts:116-124 | With the caret at offset 0 of a text leaf inside a list item of level 0, backward-delete makes the item a paragraph without `ordered` or `level`. Its children are kept. No other node changes: every node neither at the item nor above it is the same node, and the elements above it keep their attributes. The text is kept. |
| ListEffects.TabIndentsCaret | packages/list-module/src/module/plugin.ts:148-152 | Tab with the caret at offset 0 of a text leaf inside a list item writes the item's level + 1. No other node changes: every node neither at the item nor above it is the same node, and the elements above it keep their attributes. The caret stays at offset 0 inside that item. |
| ListEffects.IndentEachEffect | packages/list-module/src/module/plugin.ts:175-179 | Applying the per-block requests one after another raises exactly the selected blocks by one over their snapshot level. Every other block is unchanged. |
| ListEffects.TabIndentsSelection | packages/list-module/src/module/plugin.ts:157-181 | Tab over two or more selected top-level list items raises each selected block by one. All others are left alone. |
| ListEffects.LevelEditKeepsDecisions | packages/list-module/src/module/plugin.ts:42-112 | A document equal up to levels keeps the selection valid. It keeps the table-removal and merge decisions, the caret-in-list-item test and the list item found. |
| ListEffects.TabThenDeleteRestores | packages/list-module/src/module/plugin.ts:110-152 | Tab and then backward-delete with the caret at offset 0 inside a list item of level ≥ 0 give back the original document. If the level was missing, the result is the same document with level 0 written. |
| ListEffects.NormalizeUnwrapsLegacy | packages/list-module/src/module/plugin.ts:188-197 | A legacy list container is unwrapped and then the wrapped normaliser runs. The text is kept. At any depth the container's children take its place, in order, among its parent's children, and the rest of the tree is kept. |
| ListEffects.NormalizeLeavesOthers | packages/list-module/src/module/plugin.ts:188-197 | Any other node gets only the wrapped normaliser. |
| ListScenarios.AfterTableRemovesBlock | packages/list-module/src/module/plugin.ts:53-57 | An empty paragraph after a table, caret at its start: the block is removed. |
| ListScenarios.BeforeTableDelegates | packages/list-module/src/module/plugin.ts:42 | An empty first paragraph before a table, caret at its start: the wrapped handler runs. |
| ListScenarios.MergeAtLastBlock | packages/list-module/src/module/plugin.ts:73-94 | An empty last paragraph after a block with a hoverbar merges at `[1, 0]`. |
| ListScenarios.MergeAtNextBlock | packages/list-module/src/module/plugin.ts:66-94 | With an ordinary next block the merge point is `[2, 0]`. |
| ListScenarios.MergeBeforeTable | packages/list-module/src/module/plugin.ts:68-94 | With a table next the merge point is `[1, 0]`. |
| ListScenarios.NoMergeAfterListItem | packages/list-module/src/module/plugin.ts:77-81 | An empty paragraph after a list item that has no hoverbar is not merged. |
| ListScenarios.DemotesLevelOne | packages/list-module/src/module/plugin.ts:110-115 | Offset 0 of the only text of a level-1 list item at index 1 lowers it to level 0. |
| ListScenarios.DemotesFromLaterRun | packages/list-module/src/module/plugin.ts:103-115 | Offset 0 of the second, bold text run of a level-2 list item lowers the item to level 1. |
| ListScenarios.RemovesAfterTableFromLaterRun | packages/list-module/src/module/plugin.ts:42-57 | Offset 0 of the second text run of a block after a table removes that block. |
| FontStyle.Filtered | packages/basic-modules/src/modules/font-size-family/parse-style-html.ts:19-21 | The attribute becomes the style value exactly when the value is non-empty and in the configured list; otherwise it stays as it was. |
| FontStyle.ParseStyleHtml | packages/basic-modules/src/modules/font-size-family/parse-style-html.ts:11-30 | A non-text node is returned unchanged. On a text node `fontSize` is set to the value when it is non-empty and in `fontSizeList`, and `fontFamily` likewise with `fontFamilyList`. Otherwise each keeps its old value. Text and marks are unchanged. |
| FontStyle.ParseStyleHtmlOnlyAllowed | packages/basic-modules/src/modules/font-size-family/parse-style-html.ts:17-27 | A changed attribute holds a value of the configured list. An absent list never sets its attribute. |
| FontStyle.ParseStyleHtmlIdempotent | packages/basic-modules/src/modules/font-size-family/parse-style-html.ts:11-30 | A second run with the same inputs returns the result of the first. |

## Left out

- `packages/core/src/editor/plugins/with-selection.ts` (`select`, `deselect`, `restoreSelection`, `getSelectionPosition`, `getNodePosition`) is not part of this model. These are thin wrappers over Slate's `Transforms.select` / `deselect`, DOM focus, a global weak map and DOM geometry.
- The effects of `removeNodes({ mode: 'highest' })` and `mergeNodes` are not executed. Their semantics live in Slate, so only the request and its arguments are modelled.
- `Node.get` on a path that addresses nothing throws in Slate. The handlers instead require, on entry, the invariants Slate keeps (`Document.Valid`): the editor's children are elements and both selection ends address text leaves. The offset within the leaf is not bounded, since Slate counts it in UTF-16 code units and the handlers only test whether it is 0. The missing next block is modelled as an absent value. The `console.warn` and the `try`/`catch` around it are left out.
- `DomEditor.getSelectedNodeByType` is modelled as a search for the outermost list-item ancestor of the focus path. `DomEditor.getNodeType` is modelled as the element's type or the empty string for text.
- `Transforms.setNodes` without `at` acts on the lowest block at the selection. The model addresses the list item found instead; a list item's children are text and inline nodes.
- `Editor.nodes` filtered to depth-1 paths is modelled as the interval of top-level indices between the two selection ends. The source's second loop re-enumerates lazily while setting levels. The model computes every request from the state before the batch; level changes do not move nodes, so the two agree.
- `newEditor.getConfig().hoverbarKeys` becomes a set of block types. `editor.getMenuConfig` becomes the `MenuConfig` input.
- `$` and `getStyleValue` (DOM parsing) are replaced by the extracted style strings, given as inputs; the empty string means "not set".
- `parseStyleHtml` mutates the text node in place and returns it. The model returns the updated copy.
- Element attributes other than `type`, `level`, `ordered` and `children` are not modelled. Levels are unbounded integers rather than JavaScript numbers.
