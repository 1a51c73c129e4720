# Result-tree trace engine and symbol editor, modelled in Dafny

This project models the core of a front end for a graph model checker.

The main part is the result-tree dialog. It takes the checker's recursive `ModelCheckerTrace` and flattens it, pre-order, into rows annotated with their depth. It expands every row on load when the feedback mode is `"relevant"`. It runs the causal filter `filterCauses`, which keeps a row visible only when the row's parent is visible and the row's actual-versus-expected outcome matches the requested polarity.

The second part is the graph editor's symbol list. `addSymbol` splits the chip input on commas, trims each piece and inserts the non-empty pieces. `removeSymbol` deletes one symbol.

Files:

- `traces.dfy` (module `Traces`): the trace record, its size, and the per-node outcome `Actual` (`isModel === shouldBeModel`).
- `levels.dfy` (module `Levels`): structure read off the column of levels.
  - The descendant block of a row: the contiguous run after it that is strictly deeper.
  - The parent of a row: the nearest earlier row one level up.
  - Their properties under pre-order shape.
- `flat_tree.dfy` (module `FlatTree`): `traceToFlatNode`, the flattener, and the tree control's `getDescendants`. It also proves that the flat rows give back the tree: a block's next-level rows are the trace's children, and a row's flat parent is its trace parent.
- `causal_filter.dfy` (module `CausalFilter`): `filterCauses` as a pure function over the rows. It proves the parent-AND-relevance law, idempotence, and that hidden rows hide their whole subtree.
- `result_tree.dfy` (module `ResultTree`): the dialog state, `ngOnInit`, `hasChild`, `expandAll` with its error notification, and `updateFilter`, plus the user-level filter theorems.
- `symbol_editor.dfy` (module `SymbolEditor`): JavaScript `split(',')` and `trim()`, `addSymbol`, and `removeSymbol`.

Three behaviours of the code a reader might not expect:

- `updateFilter(true)` passes the root trace's `isModel` as the expected polarity and `true` as the parent's visibility. So the root row is filtered like any other row and is not forced visible. `ResultTree.RootVisibility` states exactly when the root stays. In particular, when the root formula is expected not to hold, turning the filter on hides the whole tree (`ResultTree.RootExpectedFalseHidesAll`). When it is expected to hold, the root always stays (`ResultTree.RootExpectedTrueShowsRoot`).
- `shouldBeModel` is not declared on `ModelCheckerTrace`, yet every row reads it. It is modelled as an optional field. When it is absent, `isModel === shouldBeModel` is false.
- The tree control's `expandAll` selects every data row, not only expandable ones. That selection can throw. The exception is modelled as a boolean outcome.

## Model

| member | source | states |
|---|---|---|
| Traces.Actual | src/app/dialogs/result-tree/result-tree.dialog.ts:82 | A node behaved as required exactly when it carries an expectation equal to its `isModel`; a node without `shouldBeModel` never does |
| Traces.SizeOneIffLeaf | src/app/model/api/model-checker-trace.ts:3-8 | A trace is a single node exactly when its children list is empty |
| CausalFilter.Relevant | src/app/dialogs/result-tree/result-tree.dialog.ts:82-84 | A row is relevant exactly when (its `shouldBeModel` equals its `isModel`) equals the requested polarity; a row without `shouldBeModel` is relevant exactly for the negative polarity |
| Levels.DescendantEnd | src/app/dialogs/result-tree/result-tree.dialog.ts:88 | The descendant block of a row ends at the first later row that is no deeper; every row inside is strictly deeper |
| Levels.DescendantEndUnique | src/app/dialogs/result-tree/result-tree.dialog.ts:88 | Any end with the block's defining property is the block's end |
| Levels.BlockNested | src/app/dialogs/result-tree/result-tree.dialog.ts:88-91 | The block of a row inside another row's block lies inside that block, so the recursion over children stays in the root's block |
| Levels.ParentOf | src/app/dialogs/result-tree/result-tree.dialog.ts:89 | The parent of a non-root row is an earlier row exactly one level up, with no such row between them |
| Levels.ParentInBlock | src/app/dialogs/result-tree/result-tree.dialog.ts:88-91 | Under pre-order shape, every row in a block has its parent in the block or at the block's owner |
| Levels.ChildInParentBlock | src/app/dialogs/result-tree/result-tree.dialog.ts:88-91 | Every row lies in its parent's descendant block |
| Levels.ChildParent | src/app/dialogs/result-tree/result-tree.dialog.ts:89-90 | A next-level row inside a block has the block's owner as its parent |
| Levels.RootBlockIsAll | src/app/dialogs/result-tree/result-tree.dialog.ts:76 | The descendant block of the first row of a single-rooted tree covers every other row |
| FlatTree.TraceToFlatNode | src/app/dialogs/result-tree/result-tree.dialog.ts:96-103 | A fresh row keeps its trace and level, starts visible, and is expandable exactly when the trace has children |
| FlatTree.FlattenNode | src/app/dialogs/result-tree/result-tree.dialog.ts:31-39 | Flattening a tree yields one row per trace node, the first being the tree's own fresh row |
| FlatTree.FlattenForest | src/app/dialogs/result-tree/result-tree.dialog.ts:31-39 | Flattening a list of trees yields one row per trace node, the first being the first tree's row |
| FlatTree.FlattenData | src/app/dialogs/result-tree/result-tree.dialog.ts:31-39 | The flattened data list has one row per trace node of its trees, the first being the first tree's fresh row at level 0 |
| FlatTree.FlattenNodeDeeper | src/app/dialogs/result-tree/result-tree.dialog.ts:31-39 | Every row after a tree's first row is deeper than it |
| FlatTree.FlattenWellFormed | src/app/dialogs/result-tree/result-tree.dialog.ts:31-39 | The flattened single-root data list has one row per node, the root's row at level 0, every other row deeper, and steps of at most one level down |
| FlatTree.GetDescendants | src/app/dialogs/result-tree/result-tree.dialog.ts:88 | The tree control's scan returns exactly the contiguous run of strictly deeper rows after the node, which is its descendant block |
| FlatTree.DescendantsOfFlatten | src/app/dialogs/result-tree/result-tree.dialog.ts:88 | In a flattened tree, a row's descendant block is exactly the flattening of its trace's children, one level deeper, and the row itself is its trace's fresh row |
| FlatTree.ImmediateChildren | src/app/dialogs/result-tree/result-tree.dialog.ts:86-91 | Reading a block's next-level rows gives back the row's trace children, in order: the level-filter workaround finds exactly the immediate children |
| FlatTree.ParentIsTraceParent | src/app/dialogs/result-tree/result-tree.dialog.ts:31-39 | A non-root row's flat parent holds the trace whose children contain the row's trace |
| CausalFilter.FilterCauses | src/app/dialogs/result-tree/result-tree.dialog.ts:80-93 | The pass sets the node's flag to parent-visible AND relevant, changes only `visible` flags, and touches only the node's descendant block |
| CausalFilter.VisitChildren | src/app/dialogs/result-tree/result-tree.dialog.ts:88-92 | The loop over the descendant block changes only flags inside the part of the block not yet visited |
| CausalFilter.FilterCausesPropagates | src/app/dialogs/result-tree/result-tree.dialog.ts:80-93 | After the pass, every row in the block has the flag of its parent row AND its own relevance |
| CausalFilter.FilterCausesIdempotent | src/app/dialogs/result-tree/result-tree.dialog.ts:80-93 | Running the pass again on its own output changes nothing |
| CausalFilter.HiddenHidesDescendants | src/app/dialogs/result-tree/result-tree.dialog.ts:84-90 | After the pass, a hidden row's descendants are all hidden |
| ResultTree.FlattenAllVisible | src/app/dialogs/result-tree/result-tree.dialog.ts:100 | Every row of a fresh flattening is visible |
| ResultTree.HasChild | src/app/dialogs/result-tree/result-tree.dialog.ts:58-60 | On a freshly built row the toggle shows exactly when the row's trace has children; ResultTree.HasChildIffDescendants extends this to every row of a loaded dialog |
| ResultTree.HasChildIffDescendants | src/app/dialogs/result-tree/result-tree.dialog.ts:58-60 | A row shows an expand toggle exactly when its trace has children, exactly when its descendant block is non-empty |
| ResultTree.ExpandAll | src/app/dialogs/result-tree/result-tree.dialog.ts:62-68 | On success every row, so every expandable row, is expanded and nothing is notified; on failure the state is unchanged and the `result-tree.expand-error` notification is raised |
| ResultTree.ExpandAllValid | src/app/dialogs/result-tree/result-tree.dialog.ts:62-68 | Expanding keeps the rows and only expands existing rows |
| ResultTree.Init | src/app/dialogs/result-tree/result-tree.dialog.ts:47-52 | Loading shows the flattened root, one row per node, all visible; it expands everything exactly in "relevant" feedback mode and otherwise leaves everything collapsed |
| ResultTree.ShowAll | src/app/dialogs/result-tree/result-tree.dialog.ts:73 | Clearing makes every row visible and changes nothing else |
| ResultTree.UpdateFilter | src/app/dialogs/result-tree/result-tree.dialog.ts:70-78 | Turning the filter off shows every row; turning it on hides the root unless its outcome matches its own `isModel`; rows and expansion keep their shape |
| ResultTree.UpdateFilterValid | src/app/dialogs/result-tree/result-tree.dialog.ts:70-78 | Toggling the filter keeps the dialog's rows the flattening of the response |
| ResultTree.ValidShape | src/app/dialogs/result-tree/result-tree.dialog.ts:48 | A loaded dialog's rows are single-rooted and the first row's block covers them all |
| ResultTree.FilterVisibility | src/app/dialogs/result-tree/result-tree.dialog.ts:76-93 | After filtering, the root's flag is its relevance, and every other row's flag is its trace parent's flag AND its own relevance |
| ResultTree.FilterKeepsRelevantChains | src/app/dialogs/result-tree/result-tree.dialog.ts:80-93 | After filtering, a row is visible exactly when it and every ancestor are relevant |
| ResultTree.FilterMonotone | src/app/dialogs/result-tree/result-tree.dialog.ts:84-90 | Filtering never shows a descendant of a hidden row |
| ResultTree.RootVisibility | src/app/dialogs/result-tree/result-tree.dialog.ts:76 | The root survives filtering exactly when (`shouldBeModel` equals `isModel`) equals `isModel`; when it is hidden every row is hidden |
| ResultTree.RootExpectedFalseHidesAll | src/app/dialogs/result-tree/result-tree.dialog.ts:76 | When the root formula is expected not to hold (`shouldBeModel` false), turning the filter on hides every row, whether or not the root held |
| ResultTree.RootExpectedTrueShowsRoot | src/app/dialogs/result-tree/result-tree.dialog.ts:76 | When the root formula is expected to hold, turning the filter on always keeps the root row |
| ResultTree.FilterIdempotent | src/app/dialogs/result-tree/result-tree.dialog.ts:70-78 | Filtering twice equals filtering once |
| ResultTree.ClearAfterFilter | src/app/dialogs/result-tree/result-tree.dialog.ts:70-78 | Filtering then clearing shows every row with nothing else changed, and restores a fully visible dialog exactly |
| ResultTree.FilterExample | src/app/dialogs/result-tree/result-tree.dialog.ts:76-93 | A failing root with a failing and a succeeding child, all expected to hold, keeps the root and the failing child and hides the succeeding child |
| SymbolEditor.Trim | src/app/components/graph-editor/symbol-editor/symbol-editor.component.ts:34 | A trimmed piece has no whitespace at either end and is no longer than the piece |
| SymbolEditor.TrimInfix | src/app/components/graph-editor/symbol-editor/symbol-editor.component.ts:34 | Trimming keeps an infix and drops only whitespace before and after it |
| SymbolEditor.TrimUnique | src/app/components/graph-editor/symbol-editor/symbol-editor.component.ts:34 | Any infix with only whitespace outside it and none at its ends is the trimmed string |
| SymbolEditor.TrimIdempotent | src/app/components/graph-editor/symbol-editor/symbol-editor.component.ts:34 | Trimming a trimmed string changes nothing |
| SymbolEditor.Split | src/app/components/graph-editor/symbol-editor/symbol-editor.component.ts:33 | Splitting yields at least one piece and no piece contains the separator |
| SymbolEditor.JoinSplit | src/app/components/graph-editor/symbol-editor/symbol-editor.component.ts:33 | Joining the pieces with the separator gives back the input |
| SymbolEditor.SplitJoin | src/app/components/graph-editor/symbol-editor/symbol-editor.component.ts:33 | Splitting the join of separator-free pieces gives back the pieces |
| SymbolEditor.SplitNoSeparator | src/app/components/graph-editor/symbol-editor/symbol-editor.component.ts:33 | A string without a comma is a single piece |
| SymbolEditor.Pieces | src/app/components/graph-editor/symbol-editor/symbol-editor.component.ts:32-34 | There is one trimmed piece per comma-separated part, in order |
| SymbolEditor.AddPieces | src/app/components/graph-editor/symbol-editor/symbol-editor.component.ts:35-42 | The set gains exactly the non-empty pieces; one emission per non-empty piece; the input is cleared exactly when some piece is non-empty |
| SymbolEditor.AddSymbol | src/app/components/graph-editor/symbol-editor/symbol-editor.component.ts:27-43 | An invalid form changes nothing and emits nothing; a valid one unites the set with the non-empty trimmed pieces, emits once per such piece, and clears the input exactly when there is one |
| SymbolEditor.AddedSymbolsAreClean | src/app/components/graph-editor/symbol-editor/symbol-editor.component.ts:32-39 | Every symbol added from input is non-empty, trimmed and comma-free |
| SymbolEditor.AddPresentUnchanged | src/app/components/graph-editor/symbol-editor/symbol-editor.component.ts:35-39 | Adding only symbols already present leaves the set unchanged, so adding the same input twice adds nothing the second time |
| SymbolEditor.RemoveSymbol | src/app/components/graph-editor/symbol-editor/symbol-editor.component.ts:45-49 | The symbol is gone, every other symbol is kept, the input text is untouched, and exactly one emission happens |
| SymbolEditor.PiecesOfClean | src/app/components/graph-editor/symbol-editor/symbol-editor.component.ts:32-34 | A non-empty, trimmed, comma-free input is exactly one piece, itself |
| SymbolEditor.AddClean | src/app/components/graph-editor/symbol-editor/symbol-editor.component.ts:27-43 | Typing a non-empty, trimmed, comma-free symbol adds exactly that symbol with one emission |
| SymbolEditor.AddThenRemove | src/app/components/graph-editor/symbol-editor/symbol-editor.component.ts:27-49 | Typing a new clean symbol and removing it again restores the set |
| SymbolEditor.RemoveThenAdd | src/app/components/graph-editor/symbol-editor/symbol-editor.component.ts:27-49 | Removing a present clean symbol and typing it again restores the set |

## Left out

- The tree control's render path: the CDK data source, lazy rendering of expanded rows, and templates. The model keeps only the data rows and the set of expanded indices.
- `closeDialog`, the dialog reference, snack-bar display and the logger. The notification is modelled as its translation key only.
- ResultTree.ExpandAll: why the tree control's selection can throw is not modelled. It is a boolean parameter, so the model proves what happens on each outcome but not when the failure occurs.
- The flat tree control's `getDescendants` looks a node up by object identity (`indexOf`). The model addresses rows by index, because every row is a distinct object.
- A missing `children` field and an empty one are both the empty sequence, because the code treats them alike (`!!children && length > 0`).
- `description` (a translation object) is an abstract type, because nothing in the core reads it.
- ResultTree.UpdateFilter: turning the filter on with no rows would read an undefined first row. The model requires a row in that case. A loaded dialog always has one.
- The form control's regular-expression validation (`Validators.pattern`) and `ngOnChanges`. Validity is a boolean input to `addSymbol`.
- The chip event's input element: the value read and the input text cleared are modelled as a string parameter and a string field.
- JavaScript strings are UTF-16 while Dafny characters are Unicode scalar values. Splitting on `,` and trimming give the same result either way, because no separator or whitespace character lies outside the Basic Multilingual Plane.
- `symbolsUpdated` emissions are counted, not delivered to listeners.
- CausalFilter.FilterCauses and FlatTree.FlattenNode are total. The source's `filterCauses` and the flattener recurse natively, so a very deep trace can throw a stack-overflow `RangeError` partway through and leave some flags already rewritten. That partial state is not modelled.
- The symbol list is the parent component's `Set`, mutated in place, and a JavaScript `Set` keeps insertion order. The model uses a value `set<string>`, so neither the sharing with the parent nor the insertion order is modelled.
- The other pages, the D3 graph canvas and its node type, and the graph configuration belong to the surrounding application, not this core.
