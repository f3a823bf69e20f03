# xmarkeditor editing core in Dafny

xmarkeditor is a rich-text editor built from plugins on top of Slate. This project models the editing logic under its React views and proves properties of that model.

Everything is modelled on values: the document is a forest of `Node`s (elements with a type, attributes and children, and text leaves with marks). Slate paths are sequences of indexes. A Slate transform becomes a function from the forest before to the forest after.

- **Tables** (`table_grid.dfy`, `table_editor.dfy`, `table_facts.dfy`, `table_examples.dfy`, `table_utils.dfy`, `table_plugin.dfy`)
  - A table is rows of cells with optional `rowSpan`/`colSpan`, plus the `data` side table of column widths and row heights.
  - `getTableCells` is the same scan as the source: the cursor skips columns claimed from earlier rows, then the cell's rectangle is filled. The scan is proved to map every key of a cell's footprint to that cell.
  - Every table command is a specification function from the table to the new table or the error it throws. The class `TableNode` performs the command step by step on its fields, and proves it reaches that result.
  - The DOM twin `getTableDesc`, `getColIndex` and `getSelectedArea` are modelled over given cell boxes.
  - From the table plugin: the row and cell repair, the delete guards, the growth of a selected rectangle, and the toolbar enablement of the selection state, kept in the class `TableSelection`.
- **Catalog numbering** (`helper.dfy`, `catalog_examples.dfy`, `base_plugin.dfy`)
  - `getCatalogTree` links each top-level heading under the nearest earlier heading of a smaller level.
  - `updateCatalogNo` gives each heading the number its parent's scheme generates.
  - The base plugin's `default` scheme produces `1.`, `1.1.` and so on.
  - Renumbering is proved idempotent, and the default numbers of a sample outline are computed.
- **The list plugin** (`list_plugin.dfy`)
  - The normaliser makes one repair per call. The node is proved to meet the list constraints exactly when no repair is issued.
  - Backspace in an item is proved never to delete a character.
  - The decision table of enter.
- **The other plugins** (`base_plugin.dfy`, `shortcut.dfy`)
  - The base plugin: the paragraph repair, the block reset on backspace, `isVoid`, the leaf styles of the marks, and the font-size sync.
  - The shortcut table and the `insertText` interception, modelled as the list of commands it issues.
- **Composition** (`core.dfy`)
  - `mergeTools` and the toolbar assembly.
  - The merging of numbering schemes and the list of plugins.
  - First-wins render dispatch and the leaf renderer fold.
  - The install chain, in which the last plugin's interceptor runs first.
- **Validators** (`image.dfy`, `url.dfy`)
  - The image reducer, `getFileName`, and the image dialog's carousel, a class whose methods move or remove the current image.
  - `isUrl`, with its three regular expressions written as string predicates. Each predicate is proved equal to the language of its expression.

`wrappers.dfy` holds `Option` and `Result`. `document.dfy` holds the Slate node model and the few Slate transforms the plugins use. Neither is part of the source.

Integers are unbounded; every count, index and width in the core stays small. JavaScript's truthiness is modelled where the source relies on it: a missing or `0` span counts as `1`, an empty `catNo` is `''`, and an empty upload result is ignored.

## Model

| member | source | states |
|---|---|---|
| TableGrid.FillRowFacts | src/lib/editor/helpers/table-editor.ts:57-59 | the inner loop adds exactly columns `colIndex .. colIndex+n-1` of row `i`, each mapped to the descriptor; every other key keeps its value |
| TableGrid.FillRowsFacts | src/lib/editor/helpers/table-editor.ts:56-60 | the first `n` rows of the loop add exactly those rows of the descriptor's rectangle; every other key keeps its value |
| TableGrid.FillFacts | src/lib/editor/helpers/table-editor.ts:56-60 | writing a descriptor adds exactly its `rowSpan × colSpan` rectangle, maps every key of it to the descriptor and changes nothing else |
| TableGrid.FillPositive | src/lib/editor/helpers/table-editor.ts:56-60 | writing a descriptor never stores one that spans no row or no column (an empty rectangle writes nothing) |
| TableGrid.Skip | src/lib/editor/helpers/table-editor.ts:46-48 | the cursor loop terminates, never moves the cursor left, and stops on a position no earlier cell claims |
| TableGrid.Placed | src/lib/editor/helpers/table-editor.ts:43-55 | a cell's descriptor lies in its row, carries its index in the row, sits on an unclaimed column at or right of the cursor, and has the cell's spans with absent or zero taken as 1 |
| TableGrid.Place | src/lib/editor/helpers/table-editor.ts:42-62 | placing one cell keeps every stored descriptor at least one row and one column large |
| TableGrid.ScanRow | src/lib/editor/helpers/table-editor.ts:42-63 | the scan of a row keeps every stored descriptor at least one row and one column large |
| TableGrid.ScanRows | src/lib/editor/helpers/table-editor.ts:39-64 | the scan of the rows keeps every stored descriptor at least one row and one column large |
| TableGrid.FillCells | src/lib/editor/helpers/table-editor.ts:56-60 | the two nested loops write exactly the descriptor's rectangle (`Fill`) |
| TableGrid.GetTableCells | src/lib/editor/helpers/table-editor.ts:35-67 | `getTableCells` as loops returns the grid of the scan, `CellMap` |
| TableGrid.PlaceKeepsInv | src/lib/editor/helpers/table-editor.ts:42-62 | placing a cell keeps the scan invariant: every key inside its descriptor's rectangle, every descriptor the one of an already scanned cell, one descriptor per cell |
| TableGrid.ScanRowKeepsInv | src/lib/editor/helpers/table-editor.ts:42-63 | the scan of a row keeps the scan invariant |
| TableGrid.ScanRowsKeepsInv | src/lib/editor/helpers/table-editor.ts:39-64 | the scan of all rows keeps the scan invariant |
| TableGrid.CellMapFacts | src/lib/editor/helpers/table-editor.ts:35-67 | every filled key `(i,j)` lies in the rectangle of its descriptor; that descriptor names an existing cell and carries its defaulted spans; one cell has one descriptor |
| TableGrid.CellMap | src/lib/editor/helpers/table-editor.ts:35-67 | the grid of the scan; its contract is stated by `CellMapFacts` and `CellMapOrder` |
| TableGrid.CellMapOrder | src/lib/editor/helpers/table-editor.ts:39-64 | scanning rows top to bottom and cells left to right, a descriptor stored under a key starts at or above it, and a cell later in the same row starts right of an earlier one |
| TableGrid.PlaceSameSpans | src/lib/editor/helpers/table-editor.ts:43-44 | two cells with the same defaulted spans are placed alike |
| TableGrid.SameSpansSameRow | src/lib/editor/helpers/table-editor.ts:43-44 | two rows whose cells agree on defaulted spans scan alike |
| TableGrid.SameSpansSameRows | src/lib/editor/helpers/table-editor.ts:43-44 | two tables that agree on shape and defaulted spans have the same grid |
| TableGrid.ZeroSpanActsAsOne | src/lib/editor/helpers/table-editor.ts:43-44 | a missing or zero `rowSpan`/`colSpan` gives the same grid as a span of 1 |
| TableGrid.RowColumnsIncrease | src/lib/editor/helpers/table-editor.ts:46-62 | within one row, with no negative span, successive cells get strictly increasing `colIndex` |
| TableGrid.CellIndexCountsColumns | src/lib/editor/helpers/table-editor.ts:188-197 | `getCellIndex` as written returns a value iff every key `(r,j)`, `j < c`, exists; the value is the number of columns left of `c` whose covering cell starts in row `r`, which is at most `c` |
| TableGrid.CountStarting | src/lib/editor/helpers/table-editor.ts:188-197 | `getCellIndex` as written, as a function; its contract is stated by `CellIndexCountsColumns` and `StartingStep` |
| TableGrid.CellIndex | src/lib/editor/helpers/table-editor.ts:188-197 | the corrected per-cell count; its contract is stated by `CellIndexCountsCells` and `CellsLeftOfStep` |
| TableGrid.StartingStep | src/lib/editor/helpers/table-editor.ts:192-195 | column `c - 1` adds one to the starting columns exactly when its cell starts in the row, and none otherwise |
| TableGrid.CellIndexCountsCells | src/lib/editor/helpers/table-editor.ts:188-197 | the corrected count reads the same keys and counts each cell of row `r` that starts left of `c` exactly once |
| TableGrid.CellsLeftOfStep | src/lib/editor/helpers/table-editor.ts:190-195 | passing a column adds one cell exactly when a cell starts there |
| TableGrid.GetCellIndex | src/lib/editor/helpers/table-editor.ts:188-197 | the loop returns the count as written, `CountStarting`: the number of grid columns left of `colIndex` whose covering cell starts in the row, or nothing on a missing key |
| TableGrid.MissingStaysMissing | src/lib/editor/helpers/table-editor.ts:190-191 | once a read of a missing key throws, every longer loop throws too |
| TableEditor.SpliceStart | src/lib/editor/helpers/table-editor.ts:167 | where `splice` starts: within the array, and at `start` when `start` is in range |
| TableEditor.SpliceInsert | src/lib/editor/helpers/table-editor.ts:167 | `splice(start, 0, x)` puts `x` at the start position, keeps what was before it and shifts the rest by one |
| TableEditor.SpliceRemove | src/lib/editor/helpers/table-editor.ts:253 | `splice(start, 1)` drops the element at an in-range `start`, and changes nothing past the end |
| TableEditor.SetCell | src/lib/editor/helpers/table-editor.ts:150-152 | `setNodes` on a cell succeeds iff the path names a cell, and then replaces only that cell |
| TableEditor.InsertCell | src/lib/editor/helpers/table-editor.ts:221-222 | `insertNodes` of a cell succeeds iff the index is at most the row's length, and then changes only that row, by inserting the cell at that index |
| TableEditor.RemoveCell | src/lib/editor/helpers/table-editor.ts:271 | `removeNodes` of a cell succeeds iff the path names a cell, and then drops only that cell |
| TableEditor.TotalCellsUpdate | src/lib/editor/helpers/table-editor.ts:150-152 | replacing one row changes the cell count by the difference of the row lengths |
| TableEditor.TotalCellsAppend | src/lib/editor/helpers/table-editor.ts:119 | adding a row adds its cells to the count |
| TableEditor.AppendRowEffect | src/lib/editor/helpers/table-editor.ts:108-125 | `appendRow` adds one row of `cols` empty cells at the end and a height of 32; the other rows, the widths and the total width stay |
| TableEditor.InsertRowScanFails | src/lib/editor/helpers/table-editor.ts:133-154 | once the column loop of `insertRow` throws, the error stays the same however far the loop goes |
| TableEditor.InsertColScanFails | src/lib/editor/helpers/table-editor.ts:203-229 | once the row loop of `insertCol` throws, the error stays the same |
| TableEditor.RemoveRowCheckFails | src/lib/editor/helpers/table-editor.ts:243-247 | the first error of the check loop of `removeRow` is the one it throws |
| TableEditor.RemoveColCheckFails | src/lib/editor/helpers/table-editor.ts:262-266 | the first error of the check loop of `removeCol` is the one it throws |
| TableEditor.RemoveColCellsAsWrittenFails | src/lib/editor/helpers/table-editor.ts:269-272 | once the as-written removal loop throws, the error stays the same |
| TableEditor.RemoveColCellsAsWritten | src/lib/editor/helpers/table-editor.ts:268-272 | the removal loop of `removeCol` as written; its contract is stated by `TableFacts.RemoveColCellsAsWrittenMeaning` |
| TableEditor.MergeScanRowFails | src/lib/editor/helpers/table-editor.ts:296-309 | once a row of the merge scan throws, the error stays the same |
| TableEditor.MergeScanFails | src/lib/editor/helpers/table-editor.ts:295-310 | once the merge scan throws, the error stays the same |
| TableEditor.MergedContentFails | src/lib/editor/helpers/table-editor.ts:328-348 | once moving the merged contents fails, the error stays the same |
| TableEditor.SplitRowFails | src/lib/editor/helpers/table-editor.ts:369-376 | once a row of the split throws, the error stays the same |
| TableEditor.SplitRowsFails | src/lib/editor/helpers/table-editor.ts:368-377 | once the split loops throw, the error stays the same |
| TableEditor.ScanMerge | src/lib/editor/helpers/table-editor.ts:294-310 | the nested loops of `mergeCells` compute the merge plan, `MergeScan` |
| TableEditor.MoveContent | src/lib/editor/helpers/table-editor.ts:326-348 | the loops hand over the merged cells' children, each cell's content first wrapped in a paragraph |
| TableEditor.SplitRowInserts | src/lib/editor/helpers/table-editor.ts:369-376 | the inner loop of `splitCell` for one row of the cell computes `SplitRow`: an empty cell at the as-written `getCellIndex` of each column but the origin, or the error of the first insert that does not fit |
| TableEditor.SplitInserts | src/lib/editor/helpers/table-editor.ts:368-377 | the nested loops of `splitCell` compute `SplitRows`, the inserts of every row of the cell, or the first error |
| TableEditor.ScanInsertRow | src/lib/editor/helpers/table-editor.ts:133-154 | the column loop of `insertRow` computes `InsertRowScan`: the grown spans and the new row's cells, or the first error |
| TableEditor.ApplyMerge | src/lib/editor/helpers/table-editor.ts:310-361 | the part of `mergeCells` after the scan computes `MergeApply`: the empty-row check, the moved contents, the removed cells and the final spans |
| TableEditor.AppendRowSpec | src/lib/editor/helpers/table-editor.ts:108-125 | `appendRow` on values; its contract is stated by `AppendRowEffect` |
| TableEditor.InsertRowSpec | src/lib/editor/helpers/table-editor.ts:127-170 | `insertRow` on values; its contract is stated by `TableFactsInsert.InsertRowEffect` |
| TableEditor.AppendColSpec | src/lib/editor/helpers/table-editor.ts:172-186 | `appendCol` on values; its contract is stated by `TableFactsInsert.AppendColEffect` |
| TableEditor.InsertColRow | src/lib/editor/helpers/table-editor.ts:204-228 | one row of `insertCol` with the as-written `getCellIndex`; its contract is stated by `TableNode.InsertColAt` and `TableFactsInsert.InsertColScanMeaning` |
| TableEditor.InsertColSpec | src/lib/editor/helpers/table-editor.ts:198-236 | `insertCol` on values; its contract is stated by `TableFactsInsert.InsertColEffect` |
| TableEditor.RemoveRowSpec | src/lib/editor/helpers/table-editor.ts:237-255 | `removeRow` on values; its contract is stated by `TableFacts.RemoveRowFails` and `RemoveRowResult` |
| TableEditor.RemoveColSpecAsWritten | src/lib/editor/helpers/table-editor.ts:256-282 | `removeCol` as written, on values; its contract is stated by `TableFacts.RemoveColAsWrittenFails` and `RemoveColAsWrittenResult` |
| TableEditor.RemoveColSpec | src/lib/editor/helpers/table-editor.ts:256-282 | the corrected `removeCol`; its contract is stated by `TableFacts.RemoveColFails` and `RemoveColResult` |
| TableEditor.MergeSpec | src/lib/editor/helpers/table-editor.ts:284-361 | `mergeCells` on values; its contract is stated by `TableFactsMerge.MergeFails`, `MergeResult` and the `TableFactsMergeCommand` lemmas |
| TableEditor.SplitRow | src/lib/editor/helpers/table-editor.ts:369-376 | one row of `splitCell` with the as-written `getCellIndex`; its contract is stated by `TableFactsSplit.SplitRowDone` and `SplitRowCount` |
| TableEditor.SplitSpec | src/lib/editor/helpers/table-editor.ts:363-384 | `splitCell` on values; its contract is stated by `TableFactsSplit.SplitEffect` |
| TableEditor.TableNode.constructor | src/lib/editor/helpers/table-editor.ts:108-110 | a table node holds the given rows and data |
| TableEditor.TableNode.AppendRow | src/lib/editor/helpers/table-editor.ts:108-125 | the new state is `AppendRowSpec` of the old one |
| TableEditor.TableNode.InsertRow | src/lib/editor/helpers/table-editor.ts:127-170 | either the new state is `InsertRowSpec` of the old one, or the command reports its error and the state is unchanged |
| TableEditor.TableNode.AppendCol | src/lib/editor/helpers/table-editor.ts:172-186 | either the new state is `AppendColSpec` of the old one, or the error is reported and the state is unchanged |
| TableEditor.TableNode.InsertColAt | src/lib/editor/helpers/table-editor.ts:204-228 | one row: a new empty cell at the index `getCellIndex` gives as written (one further on for the right side) when the covering cell starts at the column on the left side or ends there on the right side; otherwise the covering cell grows one column; a missing key is an error, and so is an insert position past the end of the row |
| TableEditor.TableNode.InsertCol | src/lib/editor/helpers/table-editor.ts:198-236 | either the new state is `InsertColSpec` of the old one, which uses the as-written `getCellIndex`, or the error is reported and the state is unchanged |
| TableEditor.TableNode.RemoveRow | src/lib/editor/helpers/table-editor.ts:237-255 | either the new state is `RemoveRowSpec` of the old one, or the error is reported and the state is unchanged |
| TableEditor.TableNode.RemoveCol | src/lib/editor/helpers/table-editor.ts:256-282 | either the new state is `RemoveColSpecAsWritten` of the old one, the removal as written that deletes the cell at `cells[(i,c)].cellIndex` in every row `i`, or the error is reported and the state is unchanged |
| TableEditor.TableNode.MergeCells | src/lib/editor/helpers/table-editor.ts:284-361 | either the new state is `MergeSpec` of the old one, or the error is reported and the state is unchanged |
| TableEditor.TableNode.SplitCell | src/lib/editor/helpers/table-editor.ts:363-384 | either the new state is `SplitSpec` of the old one, which inserts at the as-written `getCellIndex`, or the error is reported and the state is unchanged |
| TableFacts.TotalCellsConcat | src/lib/editor/helpers/table-editor.ts:250 | the cell count of joined row lists is the sum of their counts |
| TableFacts.TotalCellsRemove | src/lib/editor/helpers/table-editor.ts:250 | removing a row removes exactly its cells from the count |
| TableFacts.TotalCellsInsert | src/lib/editor/helpers/table-editor.ts:160 | inserting a row adds exactly its cells to the count |
| TableFacts.TotalCellsSplice | src/lib/editor/helpers/table-editor.ts:160 | a row put between two parts of a row list adds exactly its cells to their count |
| TableFacts.SumConcat | src/lib/editor/helpers/table-editor.ts:275-278 | the width sum of joined lists is the sum of their sums |
| TableFacts.SumRemove | src/lib/editor/helpers/table-editor.ts:274-279 | the recomputed width is the old total less the removed column |
| TableFacts.SumSplit | src/lib/editor/helpers/table-editor.ts:274-279 | the sum of the widths is the sum of a prefix plus the sum of the rest |
| TableFacts.SumLast | src/lib/editor/helpers/table-editor.ts:276-278 | the running total over one more column adds that column's width |
| TableFacts.RemoveRowCheckMeaning | src/lib/editor/helpers/table-editor.ts:243-247 | the check passes iff each column of the row has a cell spanning one row; a missing key and a taller cell give their own errors, and nothing else is thrown |
| TableFacts.RemoveRowFails | src/lib/editor/helpers/table-editor.ts:237-250 | `removeRow` throws for the last row and for a row crossed by a taller cell, and otherwise succeeds exactly for an existing row |
| TableFacts.RemoveRowResult | src/lib/editor/helpers/table-editor.ts:237-255 | a successful `removeRow` drops that row and its height, keeps every other row in order, the widths and the total width, and no cell of another row reached into the dropped one |
| TableFacts.OneRowSpans | src/lib/editor/helpers/table-editor.ts:243-247 | when every cell of the row is one row high, every one of them starts in that row |
| TableFacts.RemoveColCheckMeaning | src/lib/editor/helpers/table-editor.ts:262-266 | the check passes iff each row has a cell one column wide at the column; a missing key and a wider cell give their own errors, and nothing else is thrown |
| TableFacts.RemoveColCellsMeaning | src/lib/editor/helpers/table-editor.ts:269-272 | the corrected removal loop succeeds iff every key exists and every cell starting in its own row is addressable; it drops exactly that cell from such a row and leaves the other rows alone |
| TableFacts.RemoveColCellsStep | src/lib/editor/helpers/table-editor.ts:269-272 | one turn of the corrected removal loop, for the next row, keeps what `RemoveColCellsMeaning` promises about the rows before it |
| TableFacts.RemoveColFails | src/lib/editor/helpers/table-editor.ts:256-272 | corrected `removeCol` throws for the last column, and otherwise succeeds exactly when every row has a key for the column whose cell is one column wide |
| TableFacts.RemoveColResult | src/lib/editor/helpers/table-editor.ts:256-282 | after a successful corrected `removeCol` each row loses exactly the one-column cell that covers the column and starts in that row and every other row stays, the column's width goes, the total width is the sum of the rest, and the heights stay |
| TableFacts.RemoveColRows | src/lib/editor/helpers/table-editor.ts:268-272 | after a successful corrected `removeCol` the number of rows stays, each row that holds the start of the column's one-column cell loses exactly that cell, and every other row stays |
| TableFacts.RemoveColCellsAsWrittenMeaning | src/lib/editor/helpers/table-editor.ts:268-272 | the removal loop as written goes through iff in every row the key exists and the path `[i, cells[(i,c)].cellIndex]` names a cell; it throws only "missing cell" or a bad path; row `i` loses exactly the cell at that index, even when the covering cell starts in an earlier row |
| TableFacts.RemoveColAsWrittenFails | src/lib/editor/helpers/table-editor.ts:256-272 | `removeCol` as written throws for the last column, and otherwise goes through exactly when the check passes and every row's path resolves; a path that no longer resolves gives a bad-path error |
| TableFacts.RemoveColAsWrittenResult | src/lib/editor/helpers/table-editor.ts:256-282 | after a successful `removeCol` as written the number of rows stays, row `i` loses the cell at `cells[(i,c)].cellIndex`, the column's width goes, the total width is the sum of the rest, and the heights stay |
| TableFacts.RemoveColLoopsAgree | src/lib/editor/helpers/table-editor.ts:268-272 | where every cell in the column starts in its own row, the removal as written and the corrected one agree |
| TableFacts.ExampleCellA | src/lib/editor/helpers/table-editor.ts:42-62 | on the example table, the tall cell A claims `(0,0)` and `(1,0)` |
| TableFacts.ExampleFirstRow | src/lib/editor/helpers/table-editor.ts:39-64 | the grid after the first row of the example |
| TableFacts.ExampleGridFacts | src/lib/editor/helpers/table-editor.ts:35-67 | the whole grid of the example: A at `(0,0)`/`(1,0)`, B at `(0,1)`, C at `(1,1)` |
| TableFacts.RemoveColAsWrittenDropsOtherCell | src/lib/editor/helpers/table-editor.ts:269-272 | as written, removing column 0 of the example also deletes C from row 1, although C lies in column 1 |
| TableFacts.RemoveColKeepsOtherCell | src/lib/editor/helpers/table-editor.ts:256-282 | the corrected removal on the same table keeps C |
| TableFactsInsert.GrowKeeps | src/lib/editor/helpers/table-editor.ts:150-152 | growing one described cell by a row changes only that cell |
| TableFactsInsert.InsertRowScanOk | src/lib/editor/helpers/table-editor.ts:133-154 | on the table's own grid the column loop of `insertRow` throws only on a missing key; otherwise every cell stays or grows |
| TableFactsInsert.InsertRowScanRow | src/lib/editor/helpers/table-editor.ts:133-154 | the new row holds one empty cell for each column whose covering cell does not reach across it |
| TableFactsInsert.InsertRowScanGrows | src/lib/editor/helpers/table-editor.ts:133-154 | every other covering cell grows by one row, once, however many columns it covers |
| TableFactsInsert.GrownRowsCount | src/lib/editor/helpers/table-editor.ts:150-152 | growing cells never changes the cell count |
| TableFactsInsert.InsertRowEffect | src/lib/editor/helpers/table-editor.ts:127-170 | `insertRow` fails only on a missing key or a position outside the table; otherwise it puts the new row of empty cells at `rowIndex` (above) or after it (below), keeps the other rows with some cells taller, adds that many cells, keeps the widths and splices a height of 32 in at the same position |
| TableFactsInsert.InsertColScanMeaning | src/lib/editor/helpers/table-editor.ts:203-229 | on the table's grid the row loop of `insertCol` fails exactly on a missing key or a row that gains a cell at an as-written `getCellIndex` position (plus one on the right side) past the end of the row; otherwise a row gains one cell exactly when its covering cell does not reach across the new column |
| TableFactsInsert.InsertColStep | src/lib/editor/helpers/table-editor.ts:204-228 | one iteration of the row loop keeps the row-length invariant |
| TableFactsInsert.InsertColEffect | src/lib/editor/helpers/table-editor.ts:198-236 | `insertCol` goes through exactly when every row fits as above; then each row gains the one cell or not, the new empty cell sits at the as-written position and the rest of the row is shifted, a row that gains nothing has its covering cell one column wider where that cell starts (with no negative span), a width of 100 is spliced in at `colIndex` and added to the total, and the heights stay |
| TableFactsInsert.AppendColEffect | src/lib/editor/helpers/table-editor.ts:172-186 | `appendCol` throws iff there are more row heights than rows; otherwise each of those rows ends with a new empty cell, a width of 100 is appended and added to the total |
| TableFactsMerge.MergeScanRowMeaning | src/lib/editor/helpers/table-editor.ts:296-309 | one row of the merge scan throws iff a position has no cell or a cell sticking out of the selection, and appends, in column order, the cells other than the top-left one that start in that row |
| TableFactsMerge.MergeScanMeaning | src/lib/editor/helpers/table-editor.ts:295-310 | the whole scan throws iff some position has no cell or a cell sticking out; otherwise it lists, once each and in row-major order, exactly the cells other than the top-left one that start inside the selection |
| TableFactsMerge.MergeScanRowErrors | src/lib/editor/helpers/table-editor.ts:297-303 | a row of the scan throws only "not fully selected" or on a missing key |
| TableFactsMerge.MergeScanErrors | src/lib/editor/helpers/table-editor.ts:295-310 | the scan throws only "not fully selected" or on a missing key |
| TableFactsMerge.MergedContentErrors | src/lib/editor/helpers/table-editor.ts:328-348 | moving the contents fails only on a path that does not resolve |
| TableFactsMerge.MergeNoOp | src/lib/editor/helpers/table-editor.ts:284-293 | `mergeCells` does nothing for a one-position selection or a corner without a cell |
| TableFactsMerge.MergeFails | src/lib/editor/helpers/table-editor.ts:284-314 | past those cases it throws "not fully selected" (or on a missing key) exactly when some position of the selection has no cell or one sticking out of it |
| TableFactsMerge.MergeResult | src/lib/editor/helpers/table-editor.ts:284-361 | a merge that goes through keeps the data and the row count, and gives the top-left cell the spans of the whole selection |
| TableFactsMerge.MergeCorners | src/lib/editor/helpers/table-editor.ts:294-310 | when the scan found every cell inside the selection, the top-left cell starts at the first corner and the bottom-right cell ends at the second |
| TableFactsMerge.MergeApplyResult | src/lib/editor/helpers/table-editor.ts:310-361 | after the scan the merge throws only on a row it would empty or an unresolvable path; otherwise the row count stays and the top-left cell spans to the far corner of the bottom-right cell (the removed cells and the moved children: `TableFactsMergeCommand.MergeDeletesAbsorbed`, `MergeFillsTopLeft`) |
| TableFactsMergeEffect.MergedContentMeaning | src/lib/editor/helpers/table-editor.ts:326-348 | moving the contents goes through iff every merged cell exists and its content can be put in paragraph form; the moved children are the merged cells' contents one after the other, in scan order |
| TableFactsMergeEffect.MergeApplyEffect | src/lib/editor/helpers/table-editor.ts:349-354 | when no absorbed cell precedes the top-left one in its row, every cell that is neither absorbed nor the top-left one keeps its place in order, shifted left by the absorbed cells before it |
| TableFactsMergeEffect.MergeApplyTopLeft | src/lib/editor/helpers/table-editor.ts:326-361 | the top-left cell gets its own children in paragraph form followed by the moved children, and the spans of the selection |
| TableFactsMergeCommand.MergeDeletesAbsorbed | src/lib/editor/helpers/table-editor.ts:284-361 | a merge that goes through keeps the row count, shortens each row by the cells it absorbs from that row, and keeps every other cell in order |
| TableFactsMergeCommand.MergeFillsTopLeft | src/lib/editor/helpers/table-editor.ts:284-361 | on an ordered selection the top-left cell is the one at the first corner; its new children are its old ones (an inline first child wrapped in a paragraph) followed by the absorbed cells' children in row-major order, and it spans the whole selection |
| TableFactsMergeCommand.MergeCellCount | src/lib/editor/helpers/table-editor.ts:284-361 | a merge removes exactly as many cells from the table as it absorbs |
| TableFactsSplit.SplitRowCount | src/lib/editor/helpers/table-editor.ts:369-376 | one row of the split inserts a cell for every position but the origin |
| TableFactsSplit.SplitRowsCount | src/lib/editor/helpers/table-editor.ts:368-377 | the split inserts `rowSpan × colSpan − 1` cells in all |
| TableFactsSplit.SplitEffect | src/lib/editor/helpers/table-editor.ts:363-384 | `splitCell` throws "missing cell" when the position has no cell; otherwise it goes through exactly when every insert position `getCellIndex` gives as written lies within its row (a wide cell to the left can push it past the end, and then `insertNodes` throws); a split that goes through keeps the data and the rows outside the cell, adds one empty cell per position of the rectangle but the origin, each at its as-written index, adds `rowSpan × colSpan − 1` cells in all, and gives the origin cell spans of 1 |
| TableFactsSplit.SplitCellEffect | src/lib/editor/helpers/table-editor.ts:366-384 | for the cell found at the position, the split loops go through iff every as-written insert position fits, and then give the rows `SplitDone` describes |
| TableExamples.TallGrid | src/lib/editor/helpers/table-editor.ts:35-67 | a cell with `rowSpan` 2 claims its column in both rows |
| TableExamples.InsertBelowTallCell | src/lib/editor/helpers/table-editor.ts:127-170 | inserting below row 0 across a two-row cell adds no cell: the tall cell grows to three rows and the new row is empty |
| TableExamples.WideGridFacts | src/lib/editor/helpers/table-editor.ts:35-67 | the grid of a row holding a two-column cell and a plain cell |
| TableExamples.CellIndexAsWrittenOvercounts | src/lib/editor/helpers/table-editor.ts:188-197 | as written, `getCellIndex` counts the wide cell twice and gives 2 for column 2, where the cell starting there is cell 1; the corrected count gives 1 |
| TableExamples.InsertColLeftOfWideCell | src/lib/editor/helpers/table-editor.ts:198-236 | the index as written puts the new cell after Y; with the corrected index it goes between X and Y |
| TableExamples.InsertColRightOfWideCellThrows | src/lib/editor/helpers/table-editor.ts:198-236 | on `[[X(colSpan 2), Y]]`, inserting right of column 2 computes the index 3, past the end of the two-cell row, and throws |
| TableExamples.TwoWideGridFacts | src/lib/editor/helpers/table-editor.ts:35-67 | the grid of a row of two two-column cells |
| TableExamples.SplitSecondWideCellThrows | src/lib/editor/helpers/table-editor.ts:363-384 | on `[[W(colSpan 2), X(colSpan 2)]]`, splitting the second cell computes the index 3 and throws |
| TableExamples.PairCellP | src/lib/editor/helpers/table-editor.ts:42-62 | the first cell of a two-cell row is placed at column 0 |
| TableExamples.PairGridFacts | src/lib/editor/helpers/table-editor.ts:35-67 | the grid of a two-cell row |
| TableExamples.PairScan | src/lib/editor/helpers/table-editor.ts:294-310 | selecting both cells plans to merge the right one, with one removal in row 0 |
| TableExamples.PairContent | src/lib/editor/helpers/table-editor.ts:321-339 | each bare text is wrapped in a paragraph before it moves |
| TableExamples.PairPruned | src/lib/editor/helpers/table-editor.ts:349-354 | the merged-away cell is the one removed |
| TableExamples.MergePair | src/lib/editor/helpers/table-editor.ts:284-361 | merging the two cells keeps the left one with both paragraphs and a `colSpan` of 2 |
| TableExamples.MergedGridFacts | src/lib/editor/helpers/table-editor.ts:35-67 | the merged cell claims both columns |
| TableExamples.SplitMergedPair | src/lib/editor/helpers/table-editor.ts:363-384 | splitting the merged cell gives back two one-column cells, the second empty |
| TableUtils.AsCells | src/lib/editor/helpers/table-utils.ts:60-61 | the scan sees each `td` as its reported spans |
| TableUtils.AsRows | src/lib/editor/helpers/table-utils.ts:41-42 | the scan sees each row of `td`s as such cells |
| TableUtils.SkipClaimed | src/lib/editor/helpers/table-utils.ts:54-56 | the `while` loop moves the cursor to the same column as the grid scan of the document |
| TableUtils.ScanDomRow | src/lib/editor/helpers/table-utils.ts:50-71 | the loop over a row's `td`s computes the same map as the document scan of that row |
| TableUtils.GetTableDesc | src/lib/editor/helpers/table-utils.ts:23-74 | `getTableDesc(table).cells` is the grid of the reported spans |
| TableUtils.TableDescFacts | src/lib/editor/helpers/table-utils.ts:41-72 | every key lies in its descriptor's rectangle, and the descriptor names an existing `td` whose spans it carries |
| TableUtils.GetColIndex | src/lib/editor/helpers/table-utils.ts:76-98 | the result is the first column whose right edge lies beyond `pos`, or -1 when there is none |
| TableUtils.PrefixGrows | src/lib/editor/helpers/table-utils.ts:89-91 | with non-negative widths the running total never decreases |
| TableUtils.NoColumnBeyondWidth | src/lib/editor/helpers/table-utils.ts:90-97 | with non-negative widths the result is -1 exactly when there is no column or `pos` is at or beyond the total width |
| TableUtils.FoundColumnContains | src/lib/editor/helpers/table-utils.ts:90-95 | with non-negative widths the column found is the one whose span contains `pos` |
| TableUtils.NoAreaWithoutFirstCorner | src/lib/editor/helpers/table-utils.ts:120-129 | with no first corner, or a first corner without a cell, the area is all zeros |
| TableUtils.SwapCornersSameArea | src/lib/editor/helpers/table-utils.ts:132-145 | swapping the two corners selects the same area |
| TableUtils.OneCellArea | src/lib/editor/helpers/table-utils.ts:132-150 | naming one cell as both corners selects that cell's own box, as naming it alone does |
| TableUtils.SelectedArea | src/lib/editor/helpers/table-utils.ts:120-153 | `getSelectedArea` on values; its contract is stated by `NoAreaWithoutFirstCorner`, `SwapCornersSameArea` and `OneCellArea` |
| TablePlugin.NormalizeTableNode | src/lib/editor/plugins/table.tsx:18-44 | on a `table` (or `tr`) the first element child of the wrong type is wrapped in a `tr` (or `td`) and nothing else changes; the node is passed on iff it is neither or has no such child |
| TablePlugin.MisplacedCountUpdate | src/lib/editor/plugins/table.tsx:22-29 | replacing one child changes the number of misplaced children by exactly that child's contribution |
| TablePlugin.RepairFixesOne | src/lib/editor/plugins/table.tsx:25-26 | each repair removes one misplaced child and adds none, so repeated normalisation of a node ends |
| TablePlugin.CellDeleteBackward | src/lib/editor/plugins/table.tsx:46-72 | away from the cell's start the previous handler runs; at the start the key is swallowed, and the cell keeps its children, loses its first child, or has a first block turned into a paragraph; a non-empty cell never becomes empty |
| TablePlugin.CellBackspaceFixpoint | src/lib/editor/plugins/table.tsx:58-66 | backspace at a cell's start leaves the cell unchanged exactly when it has at most one child and that child is text or a paragraph |
| TablePlugin.CellDeleteForward | src/lib/editor/plugins/table.tsx:74-93 | away from the cell's end the previous handler runs; at the end the key is swallowed and the cell stays as it is |
| TablePlugin.GrowSelection | src/lib/editor/plugins/table.tsx:334-374 | there is no selection to grow iff no first corner is set; the pass throws iff a position of the ordered rectangle has no cell; otherwise the result covers the ordered rectangle and the footprint of every cell in it, and each of its edges comes from the rectangle or a cell met in the row-major pass |
| TablePlugin.GrowRow | src/lib/editor/plugins/table.tsx:367-373 | the inner loop over one row either meets a position with no cell, or carries the pass's state to the start of the next row |
| TablePlugin.GrownStep | src/lib/editor/plugins/table.tsx:368-372 | one step of the pass keeps the rectangle covering the ordered one and every footprint met, and every edge attained by the rectangle or a cell already met |
| TablePlugin.GrownNextRow | src/lib/editor/plugins/table.tsx:366-367 | moving to the next row keeps the state of the pass |
| TablePlugin.GrownDone | src/lib/editor/plugins/table.tsx:366-374 | after the last row every position of the ordered rectangle has been met, so its cell exists and its footprint is covered |
| TablePlugin.TableSelection.constructor | src/lib/editor/plugins/table.tsx:214-230 | a new table starts with no selected cells, rows or columns |
| TablePlugin.TableSelection.SelectRow | src/lib/editor/plugins/table.tsx:290-306 | selecting a row selects it across every column and clears the column selection |
| TablePlugin.TableSelection.SelectCol | src/lib/editor/plugins/table.tsx:311-327 | selecting a column selects it down every row and clears the row selection |
| TablePlugin.TableSelection.PressCell | src/lib/editor/plugins/table.tsx:405-420 | a press on a cell starts a one-corner selection there and clears the row and column selections |
| TablePlugin.TableSelection.SelectCell | src/lib/editor/plugins/table.tsx:334-392 | a grown rectangle covers the ordered one; only the end of a drag stores it; the row and column selections stay |
| TablePlugin.TableSelection.InsertedRowAbove | src/lib/editor/plugins/table.tsx:462-467 | after an insert above that went through, the selected cells move one row down; after one that threw, nothing changes |
| TablePlugin.TableSelection.InsertedColLeft | src/lib/editor/plugins/table.tsx:491-496 | after an insert left that went through, the selected cells move one column right; after one that threw, nothing changes |
| TablePlugin.TableSelection.DeletedRow | src/lib/editor/plugins/table.tsx:476-485 | the delete-row button removes the first selected row, if any, and, when the removal went through, clears the row and the cell selection; with no selected row or a thrown removal nothing changes |
| TablePlugin.TableSelection.DeletedCol | src/lib/editor/plugins/table.tsx:505-514 | the delete-column button does the same for columns |
| TablePlugin.TableSelection.CanInsertRowAbove | src/lib/editor/plugins/table.tsx:462-468 | enablement of insert above; stated by `AboveImpliesBelow`, `PressThenTools` and `SelectRowThenTools` |
| TablePlugin.TableSelection.CanInsertRowBelow | src/lib/editor/plugins/table.tsx:469-474 | enablement of insert below; stated by the same lemmas |
| TablePlugin.TableSelection.CanInsertColLeft | src/lib/editor/plugins/table.tsx:491-497 | enablement of insert left; stated by the same lemmas |
| TablePlugin.TableSelection.CanInsertColRight | src/lib/editor/plugins/table.tsx:499-503 | enablement of insert right; stated by the same lemmas |
| TablePlugin.TableSelection.CanMerge | src/lib/editor/plugins/table.tsx:520-524 | enablement of merge; stated by `MergeSplitExclusive` and `PickedIsOrdered` |
| TablePlugin.TableSelection.CanSplit | src/lib/editor/plugins/table.tsx:526-530 | enablement of split; stated by `MergeSplitExclusive` |
| TablePlugin.MergeSplitExclusive | src/lib/editor/plugins/table.tsx:520-531 | merge and split are never enabled together |
| TablePlugin.AboveImpliesBelow | src/lib/editor/plugins/table.tsx:462-504 | insert above (left) is enabled only where insert below (right) is |
| TablePlugin.PressThenTools | src/lib/editor/plugins/table.tsx:405-531 | after a press on a cell, split and insert below and right are enabled, merge is not, and insert above (left) exactly off the first row (column) |
| TablePlugin.SelectRowThenTools | src/lib/editor/plugins/table.tsx:290-531 | after selecting a row, merge is enabled exactly with two or more columns; split and column inserts are not; insert below is, and insert above exactly off the first row |
| TablePlugin.PickedIsOrdered | src/lib/editor/plugins/table.tsx:355-374 | a grown selection is ordered, and once stored, merge is enabled exactly when it spans more than one position |
| Helper.SetContentType | src/lib/editor/helpers/xmark-helper.ts:163-175 | a non-block first child is wrapped in a new element of the type, a block first child is retyped, the other children stay; an element without children is an error |
| Helper.IsMarkActive | src/lib/editor/helpers/xmark-helper.ts:143-146 | whether a mark is strictly `true`; its contract is stated by `ToggleMark` (an active mark is removed) and `DecorationsExclusive` |
| Helper.ToggleMark | src/lib/editor/helpers/xmark-helper.ts:147-161 | an active mark is removed; otherwise the mark is set to the value, the excluded decoration (strike-through for underline and vice versa) removed and every other mark kept; no selection, no change |
| Helper.DecorationsExclusive | src/lib/editor/helpers/xmark-helper.ts:147-161 | turning strike-through or underline on leaves the other one inactive and the new one active |
| Helper.ToggleOnOff | src/lib/editor/helpers/xmark-helper.ts:143-161 | toggling an inactive mark twice leaves exactly the old marks minus the mark and its excluded decoration |
| Helper.GetTextConcat | src/lib/editor/helpers/xmark-helper.ts:177-186 | the text of a concatenation of children is the concatenation of their texts |
| Helper.GetTextSkipsElements | src/lib/editor/helpers/xmark-helper.ts:177-186 | an element child contributes nothing, whatever text it holds: only direct text children count |
| Helper.GetText | src/lib/editor/helpers/xmark-helper.ts:177-186 | `getText`; its contract is stated by `GetTextConcat` and `GetTextSkipsElements` |
| Helper.GetInsertPath | src/lib/editor/helpers/xmark-helper.ts:192-205 | with a focus the path is just after its top-level block, without one it is the end of the document; a focus with no top-level ancestor below the root is an error |
| Helper.HeadingLevel | src/lib/editor/helpers/xmark-helper.ts:282-298 | the level is at most 6 |
| Helper.HeadingRoundTrip | src/lib/editor/helpers/xmark-helper.ts:282-316 | level to type to level is the identity on 1..6, any other level gives heading-6, and type to level to type is the identity on the six heading types |
| Helper.HeadingType | src/lib/editor/helpers/xmark-helper.ts:300-316 | level to heading type; its contract is stated by `HeadingRoundTrip` |
| Helper.ParentOf | src/lib/editor/helpers/xmark-helper.ts:318-325 | the parent is the last earlier entry with a strictly smaller level: everything after it has a level at least as big; -1 when there is none |
| Helper.FindParent | src/lib/editor/helpers/xmark-helper.ts:318-325 | the backward loop returns that last smaller-level entry, or -1 |
| Helper.LinkedUpTo | src/lib/editor/helpers/xmark-helper.ts:243-251 | each entry's children are the later entries whose parent it is, in document order |
| Helper.Linked | src/lib/editor/helpers/xmark-helper.ts:243-251 | every entry's children are exactly the entries whose parent it is, in document order |
| Helper.GetCatalogTree | src/lib/editor/helpers/xmark-helper.ts:225-255 | the entries are the top-level headings in document order with index keys, each linked under its parent; the tree lists the entries without a parent, in order |
| Helper.AddCatalog | src/lib/editor/helpers/xmark-helper.ts:243-251 | one loop body appends the entry, pushes it onto its parent's children or, without a parent, onto the tree |
| Helper.CatalogStep | src/lib/editor/helpers/xmark-helper.ts:229-252 | one iteration keeps the tree and entries equal to the catalog of the nodes seen so far; a non-heading is skipped |
| Helper.CatalogAdd | src/lib/editor/helpers/xmark-helper.ts:229-252 | the catalog of one more heading is the old catalog with the new entry linked under its parent and, without a parent, added to the roots |
| Helper.ParentOfSameLevels | src/lib/editor/helpers/xmark-helper.ts:318-325 | the parent depends only on the levels of the entries |
| Helper.FilterSameLevels | src/lib/editor/helpers/xmark-helper.ts:243-251 | the children lists depend only on the levels of the entries |
| Helper.FilterNoLaterParent | src/lib/editor/helpers/xmark-helper.ts:318-325 | no entry has itself or a later entry as its parent |
| Helper.FilterAppend | src/lib/editor/helpers/xmark-helper.ts:243-251 | appending an entry adds it to its parent's children and to no other list |
| Helper.LinkedAppendOld | src/lib/editor/helpers/xmark-helper.ts:243-251 | after an append an old entry's children gain the new entry exactly when it is the parent |
| Helper.LinkedAppendNew | src/lib/editor/helpers/xmark-helper.ts:241 | a newly appended entry has no children |
| Helper.LinkStep | src/lib/editor/helpers/xmark-helper.ts:243-251 | pushing onto the parent found by findParent and appending gives the linked catalog of the longer list |
| Helper.HeadingsPrefix | src/lib/editor/helpers/xmark-helper.ts:229-233 | the entries of a prefix of the document are a prefix of the entries |
| Helper.HeadingsGrow | src/lib/editor/helpers/xmark-helper.ts:229-251 | visiting one more node only appends to the entries collected so far |
| Helper.HeadingAt | src/lib/editor/helpers/xmark-helper.ts:234-242 | a heading at document index i is the entry after those of the first i nodes, with key i, its level and its catNo |
| Helper.UpdateCatalogNo | src/lib/editor/helpers/xmark-helper.ts:261-280 | the document keeps its length and every top-level node is the renumbered one: a heading whose scheme exists gets its generated number |
| Helper.NoSchemeNoWrite | src/lib/editor/helpers/xmark-helper.ts:268-272 | a heading whose numbering type has no generator is not written to and keeps its catNo |
| Helper.RenumberedKeepsShape | src/lib/editor/helpers/xmark-helper.ts:270-271 | renumbering changes only catNo: the type, the children and every other attribute stay |
| Helper.EntryAfterUpdate | src/lib/editor/helpers/xmark-helper.ts:265-279 | the catalog entry of a renumbered heading is the old entry with its new number |
| Helper.HeadingsAfterUpdate | src/lib/editor/helpers/xmark-helper.ts:261-280 | the catalog of the renumbered document is the old catalog with the new numbers |
| Helper.RenumberedAddsHeading | src/lib/editor/helpers/xmark-helper.ts:229-252 | that correspondence extends over one more heading |
| Helper.RenumberedSkipsNode | src/lib/editor/helpers/xmark-helper.ts:229-233 | that correspondence extends over one more non-heading node |
| Helper.RenumberedStep | src/lib/editor/helpers/xmark-helper.ts:229-233 | the correspondence between renumbered and old entries carries from one node to the next, heading or not |
| Helper.RenumberedFirstAt | src/lib/editor/helpers/xmark-helper.ts:266-271 | entry `e` of the renumbered catalog is entry `e` with the number its scheme generates, or its old number without a scheme |
| Helper.Renumber | src/lib/editor/helpers/xmark-helper.ts:265-279 | the new number of one entry; its contract is stated by `RenumberedFirstAt` and `NumberStable` |
| Helper.NumberStable | src/lib/editor/helpers/xmark-helper.ts:265-279 | on a renumbered catalog every entry gets the same scheme and the same number again |
| Helper.UpdateCatalogNoIdempotent | src/lib/editor/helpers/xmark-helper.ts:261-280 | running updateCatalogNo twice with no edit in between gives the document of one run |
| Helper.StyleName | src/lib/editor/helpers/xmark-helper.ts:352-353 | the property name prefixed with `style-` is the key |
| Helper.StyleKey | src/lib/editor/helpers/xmark-helper.ts:361 | the key is a style key whose stripped name is the property |
| Helper.StyleReadBack | src/lib/editor/helpers/xmark-helper.ts:349-365 | after setElementStyle a property reads back as the new value when set, else as the old value, and exists iff in either |
| Helper.StyleRoundTrip | src/lib/editor/helpers/xmark-helper.ts:349-365 | reading the style back gives the old style overridden by the new style |
| Helper.StyleInverse | src/lib/editor/helpers/xmark-helper.ts:349-365 | on an element without style attributes getElementStyle inverts setElementStyle |
| Helper.GetElementStyle | src/lib/editor/helpers/xmark-helper.ts:349-356 | `getElementStyle`; its contract is stated by `StyleReadBack`, `StyleRoundTrip` and `StyleInverse` |
| Helper.SetElementStyle | src/lib/editor/helpers/xmark-helper.ts:358-365 | `setElementStyle`; its contract is stated by the same lemmas |
| CatalogExamples.OutlineParents | src/lib/editor/helpers/xmark-helper.ts:318-325 | for headings at levels 1,2,2,1,2 the parents are none, the first, the first, none, the fourth |
| CatalogExamples.OutlineSiblings | src/lib/editor/helpers/xmark-helper.ts:243-251 | the sibling positions of those headings among their parent's children |
| CatalogExamples.DefaultOutlineNumbers | src/lib/editor/helpers/xmark-helper.ts:265-279 | with the default scheme the headings at levels 1,2,2,1,2 are numbered 1., 1.1., 1.2., 2., 2.1. |
| CatalogExamples.OutlineRoots | src/lib/editor/plugins/base.tsx:406-411 | the two roots get 1. and 2. |
| CatalogExamples.OutlineFirstChildren | src/lib/editor/plugins/base.tsx:406-411 | the children of the first root get 1.1. and 1.2. |
| CatalogExamples.OutlineSecondChild | src/lib/editor/plugins/base.tsx:406-411 | the child of the second root gets 2.1. |
| CatalogExamples.NotBlank | src/lib/editor/plugins/base.tsx:407 | a number starting with a digit is not blank after trimming |
| BasePlugin.NatToString | src/lib/editor/plugins/base.tsx:408 | the decimal text of a number is nonempty and made of digits |
| BasePlugin.ParseNatToString | src/lib/editor/plugins/base.tsx:408 | the decimal text reads back as the number, so distinct positions give distinct texts |
| BasePlugin.DefaultGenerate | src/lib/editor/plugins/base.tsx:406-411 | a default number ends with a dot and, for a non-blank parent number, starts with it |
| BasePlugin.DefaultNumberNotBlank | src/lib/editor/plugins/base.tsx:406-411 | a default number is never blank, so a child's number always extends its parent's |
| BasePlugin.DefaultNumberComponent | src/lib/editor/plugins/base.tsx:406-411 | a default number is the parent number (dropped when blank), the digits of index+1, then a dot |
| BasePlugin.DefaultSiblingsDistinct | src/lib/editor/plugins/base.tsx:406-411 | two siblings never get the same default number |
| BasePlugin.SizeAllConcat | src/lib/editor/plugins/base.tsx:325-332 | the size of a forest is additive over concatenation |
| BasePlugin.NormalizeParagraph | src/lib/editor/plugins/base.tsx:321-336 | a paragraph with a block child has its first block child unwrapped and nothing else; any other node passes to the previous rule |
| BasePlugin.UnwrapShrinks | src/lib/editor/plugins/base.tsx:325-332 | each unwrap removes exactly one node, so repeated paragraph repair ends |
| BasePlugin.BlockReset | src/lib/editor/plugins/base.tsx:289-319 | backspace is handled exactly when the selection is a caret at the start of a block that is not a paragraph; otherwise the previous deleteBackward runs |
| BasePlugin.UpdateKeepsKinds | src/lib/editor/plugins/base.tsx:309-311 | the renumbering that follows keeps every node's type and the tree shape |
| BasePlugin.BlockResetMakesParagraph | src/lib/editor/plugins/base.tsx:301-314 | after a handled backspace the block is a paragraph, or a table cell if it was one |
| BasePlugin.CellBackspaceKeepsDocument | src/lib/editor/plugins/base.tsx:305-313 | backspace at the start of a table cell is swallowed and changes nothing |
| BasePlugin.IsVoid | src/lib/editor/plugins/base.tsx:285-287 | horizontal lines are void, anything else as the previous rule says |
| BasePlugin.LeafStyle | src/lib/editor/plugins/base.tsx:366-391 | bold, italic and font size (with a px suffix) go into the style; strike-through wins over underline; the keys that come out are the old ones plus exactly those whose mark is on (`textDecoration` when either decoration is); a key whose mark is off keeps its old value, and so does every other property |
| BasePlugin.PlainLeafUnchanged | src/lib/editor/plugins/base.tsx:366-391 | a leaf without marks is rendered as it comes |
| BasePlugin.ToggledDecorationShows | src/lib/editor/plugins/base.tsx:383-388 | a decoration just toggled on is the one shown, since toggleMark removes the other |
| BasePlugin.FontSizeSync | src/lib/editor/plugins/base.tsx:122-135 | the size is that of the first text node with a font size, and 14 when none has one |
| Shortcut.HashShortcuts | src/lib/editor/plugins/shortcut.tsx:8-13 | n hash signs, n in 1..6, map to the level-n heading |
| Shortcut.NumberedHashShortcuts | src/lib/editor/plugins/shortcut.tsx:14-19 | `#n`, n in 1..6, maps to the level-n heading |
| Shortcut.ShortcutOptions | src/lib/editor/plugins/shortcut.tsx:6-25 | only `---` adds a new line, and exactly `*`, `-` and `+` wrap, each a list item in a list type |
| Shortcut.HeadingShortcutForms | src/lib/editor/plugins/shortcut.tsx:8-19 | every heading in the table is one of the six levels and comes from a prefix starting with `#` |
| Shortcut.OtherTextPassesOn | src/lib/editor/plugins/shortcut.tsx:34-37 | any text but a space or a tab goes straight to the previous insertText |
| Shortcut.PrefixConverts | src/lib/editor/plugins/shortcut.tsx:50-72 | a space after a table prefix deletes the prefix and toggles the block, then inserts a paragraph iff `---`, renumbers iff a heading, wraps iff a list item, and types nothing |
| Shortcut.UnknownPrefixTyped | src/lib/editor/plugins/shortcut.tsx:50-100 | a space is typed as text exactly when the prefix is neither a key of the table nor a key every object inherits (`constructor`, `toString` and the like) |
| Shortcut.InheritedPrefixFails | src/lib/editor/plugins/shortcut.tsx:50-56 | a space after an inherited key such as `constructor` deletes the prefix and then fails in `toggleBlock`, which is called with no block type; nothing is typed |
| Shortcut.OwnKeysNotInherited | src/lib/editor/plugins/shortcut.tsx:6-25 | no key of the table is an inherited key, so the two cases never overlap |
| Shortcut.Shortcuts | src/lib/editor/plugins/shortcut.tsx:6-25 | the table; its contract is stated by `HashShortcuts`, `NumberedHashShortcuts`, `ShortcutOptions` and `HeadingShortcutForms` |
| Shortcut.InsertText | src/lib/editor/plugins/shortcut.tsx:29-101 | the `insertText` interception as the commands it issues; its contract is stated by `OtherTextPassesOn`, `PrefixConverts`, `UnknownPrefixTyped`, `InheritedPrefixFails`, `TabChangesLevel` and `TabElsewhereTyped` |
| Shortcut.TabChangesLevel | src/lib/editor/plugins/shortcut.tsx:77-96 | a tab at the start of a heading moves its level down with shift when above 1 and up without when below 6, stays in 1..6, and is never typed |
| Shortcut.TabElsewhereTyped | src/lib/editor/plugins/shortcut.tsx:77-100 | a tab after text or outside a heading is typed as text |
| ListPlugin.FirstChildFix | src/lib/editor/plugins/list.tsx:137-156 | no repair exactly when no child demands one; otherwise the repair of the first child that demands one |
| ListPlugin.FindChildFix | src/lib/editor/plugins/list.tsx:137-156 | the loop over a list's children returns the first child's repair, one per call |
| ListPlugin.NormalizeListNode | src/lib/editor/plugins/list.tsx:112-161 | the document gets the one repair the rule issues; the entry goes on to the previous rule unless a list was repaired |
| ListPlugin.KeepIffLocalOk | src/lib/editor/plugins/list.tsx:115-157 | the rule issues no repair exactly when the node meets the list constraints: item style matching its list, no nested lists, only items in a list |
| ListPlugin.AllOkAt | src/lib/editor/plugins/list.tsx:115-157 | a tree meeting the constraints everywhere meets them at every existing path |
| ListPlugin.NormalizedIsFixpoint | src/lib/editor/plugins/list.tsx:115-157 | on a document meeting every list constraint a normalisation step is the identity |
| ListPlugin.StyleRepairHolds | src/lib/editor/plugins/list.tsx:116-122 | after its style repair an item meets its constraint |
| ListPlugin.WrapRepairHolds | src/lib/editor/plugins/list.tsx:126-133 | the list a stray item is wrapped in (task list for checkbox style, bulleted list otherwise) meets the constraints |
| ListPlugin.ItemFix | src/lib/editor/plugins/list.tsx:115-134 | the repair a list item needs; its contract is stated by `StyleRepairHolds`, `WrapRepairHolds` and `KeepIffLocalOk` |
| ListPlugin.ChildFix | src/lib/editor/plugins/list.tsx:137-156 | the repair a list's child needs; its contract is stated by `FirstChildFix` and `KeepIffLocalOk` |
| ListPlugin.ListRule | src/lib/editor/plugins/list.tsx:112-161 | the normalise rule; its contract is stated by `KeepIffLocalOk` and `NormalizedIsFixpoint` |
| ListPlugin.LocalOk | src/lib/editor/plugins/list.tsx:115-157 | the list constraints at one node; stated by `KeepIffLocalOk` and `AllOkAt` |
| ListPlugin.ListBackspace | src/lib/editor/plugins/list.tsx:74-111 | backspace is handled exactly when the caret is collapsed at the start of a list item; otherwise the previous deleteBackward runs |
| ListPlugin.GetParent | src/lib/editor/plugins/list.tsx:90 | a node below the top level has an element parent holding it at the last index of its path |
| ListPlugin.ContentConcat | src/lib/editor/plugins/list.tsx:86-105 | the text of a forest is additive over concatenation |
| ListPlugin.ContentOne | src/lib/editor/plugins/list.tsx:86-105 | the text of a one-node forest is the node's text |
| ListPlugin.ContentSplice | src/lib/editor/plugins/list.tsx:86-105 | the text of a spliced forest is the text of its three parts in order |
| ListPlugin.ContentPair | src/lib/editor/plugins/list.tsx:86-105 | the text of a pair is the two texts in order |
| ListPlugin.MergeKeepsContent | src/lib/editor/plugins/list.tsx:103 | merging an item into the lowest block before it never loses or reorders text |
| ListPlugin.MergeIntoLastContent | src/lib/editor/plugins/list.tsx:103 | merging a block into the lowest last block of the previous node keeps the two texts in order |
| ListPlugin.MergeIntoNestedParagraph | src/lib/editor/plugins/list.tsx:52-54 | after shift-enter has wrapped an item's text in a paragraph, backspace in the next item joins its text into that paragraph |
| ListPlugin.MergeWithPrevious | src/lib/editor/plugins/list.tsx:103 | `mergeNodes` on the item and the node before it; its contract is stated by `MergeKeepsContent` |
| ListPlugin.DropEmpty | src/lib/editor/plugins/list.tsx:103 | when the lowest block before the item is an empty element, it is replaced by the item and no text is lost |
| ListPlugin.MergeTexts | src/lib/editor/plugins/list.tsx:103 | when both blocks end in text nodes, the joined text is the two texts in order |
| ListPlugin.MergeElements | src/lib/editor/plugins/list.tsx:103 | when both are elements, the item's children are appended to the lowest block and the text is the two texts in order |
| ListPlugin.ItemBackspaceKeepsContent | src/lib/editor/plugins/list.tsx:92-104 | each of the three backspace cases keeps the text of the parent's nodes |
| ListPlugin.ReplaceKeepsContent | src/lib/editor/plugins/list.tsx:92-104 | replacing a node by nodes with the same text keeps the document's text |
| ListPlugin.ListBackspaceKeepsContent | src/lib/editor/plugins/list.tsx:74-111 | a handled backspace in a list item deletes no character of the document |
| ListPlugin.SoleItemBecomesParagraph | src/lib/editor/plugins/list.tsx:92-97 | the sole item of a list replaces the list as a paragraph with the item's attributes and children |
| ListPlugin.ItemBackspace | src/lib/editor/plugins/list.tsx:92-104 | the three backspace cases; their contract is stated by `ItemBackspaceKeepsContent` and `SoleItemBecomesParagraph` |
| ListPlugin.BreakDecision | src/lib/editor/plugins/list.tsx:37-72 | the decision enter takes; its leave-list outcome is stated by `EnterLeavesList` |
| ListPlugin.LeaveList | src/lib/editor/plugins/list.tsx:61-66 | the list and the empty paragraph that split, lift and setNodes leave in its place; its contract is stated by `EnterLeavesList` |
| ListPlugin.BreakLeaveList | src/lib/editor/plugins/list.tsx:61-66 | the document after enter in an empty last item; its contract is stated by `EnterLeavesList` |
| ListPlugin.EnterLeavesList | src/lib/editor/plugins/list.tsx:61-66 | enter in the empty last item of a list keeps the list and all its items, puts an empty paragraph right after the list, and keeps the document's text |
| Core.LastNamed | src/lib/editor/xmark-core.tsx:41-43 | the position of the last group with the name, which is the one the name map holds; -1 when there is none |
| Core.IndexesAppend | src/lib/editor/xmark-core.tsx:49-50 | pushing a group and recording it under its name keeps the name map pointing at each name's last group |
| Core.IndexesUpdate | src/lib/editor/xmark-core.tsx:45-46 | changing a group's buttons keeps the name map valid |
| Core.NameIndexLast | src/lib/editor/xmark-core.tsx:41-46 | the name map holds exactly the names of the groups, each at the position of its last group, so a lookup finds the group `mergeTools` merges into |
| Core.NameIndexByNames | src/lib/editor/xmark-core.tsx:45-46 | the name map depends only on the names of the groups, so adding buttons keeps it |
| Core.IndexesFirst | src/lib/editor/xmark-core.tsx:41-43 | one step of the first loop keeps the name map valid for the groups seen so far |
| Core.MergeTools | src/lib/editor/xmark-core.tsx:37-55 | the two loops produce the merged groups: each group of tools2 joins the group of its name, or is appended |
| Core.IndexGroups | src/lib/editor/xmark-core.tsx:41-43 | the first loop maps every name of tools1 to its last group |
| Core.AddGroup | src/lib/editor/xmark-core.tsx:44-52 | one step of the second loop merges or appends the group and keeps the name map valid |
| Core.UpdateButtons | src/lib/editor/xmark-core.tsx:45-46 | extending a name's last group adds the new buttons after that name's buttons and changes no other name |
| Core.StepButtons | src/lib/editor/xmark-core.tsx:44-52 | one step adds the incoming buttons after those of its name only |
| Core.MergeFromButtons | src/lib/editor/xmark-core.tsx:44-52 | after k steps each name holds the buttons of tools1, then those of the first k groups of tools2 |
| Core.MergeKeepsButtons | src/lib/editor/xmark-core.tsx:37-55 | for every name the merged groups hold the buttons of tools1 followed by those of tools2, in order |
| Core.UpdateCount | src/lib/editor/xmark-core.tsx:45-46 | extending a group adds exactly the new buttons to the count |
| Core.MergeFromCount | src/lib/editor/xmark-core.tsx:44-52 | after k steps the count is that of tools1 plus that of the first k groups of tools2 |
| Core.MergeKeepsCount | src/lib/editor/xmark-core.tsx:37-55 | merging loses and duplicates no button |
| Core.LastNamedIn | src/lib/editor/xmark-core.tsx:45 | a name has a last group exactly when it is among the names |
| Core.StepNames | src/lib/editor/xmark-core.tsx:44-52 | one step adds the group's name at the end exactly when it is new |
| Core.MergeFromNames | src/lib/editor/xmark-core.tsx:44-52 | after k steps the names are those of tools1 followed by the new names in first-occurrence order |
| Core.MergeNames | src/lib/editor/xmark-core.tsx:37-55 | the merged groups are those of tools1 in order, then the groups of tools2 with new names, in first-occurrence order |
| Core.MergeKeepsFirst | src/lib/editor/xmark-core.tsx:37-55 | the groups of tools1 keep their positions and names |
| Core.MergeToolsSpec | src/lib/editor/xmark-core.tsx:37-55 | `mergeTools` on values; its contract is stated by `MergeKeepsButtons`, `MergeKeepsCount`, `MergeNames` and `MergeKeepsFirst` |
| Core.FreshPrefix | src/lib/editor/xmark-core.tsx:44-52 | the new names found in a prefix of tools2 are a prefix of those found in a longer one |
| Core.FreshNames | src/lib/editor/xmark-core.tsx:44-52 | every new name comes from tools2 |
| Core.CatalogNoMapOf | src/lib/editor/xmark-core.tsx:61-70 | the loop's map is that of every plugin's schemes merged in plugin order |
| Core.LastProvider | src/lib/editor/xmark-core.tsx:61-70 | the last plugin with a scheme of the key: no later plugin has one |
| Core.LaterSchemesWin | src/lib/editor/xmark-core.tsx:61-70 | a scheme is present iff some plugin has it, and it is the last such plugin's |
| Core.AllPlugins | src/lib/editor/xmark-core.tsx:73-78 | the defaults come first and unchanged, then the given plugins when there are any |
| Core.CatalogNoMapConcat | src/lib/editor/xmark-core.tsx:61-70 | the schemes of two plugin lists in a row are the first list's overridden by the second's |
| Core.CatalogNoMapPrefix | src/lib/editor/xmark-core.tsx:61-70 | the schemes of the first k plugins depend only on those plugins |
| Core.ExtrasOverrideDefaults | src/lib/editor/xmark-core.tsx:61-78 | in the schemes of all plugins an extra plugin's scheme replaces a default one of the same key |
| Core.CatalogNoMap | src/lib/editor/xmark-core.tsx:61-70 | the merged numbering schemes; its contract is stated by `LaterSchemesWin` and `CatalogNoMapConcat` |
| Core.Tools | src/lib/editor/xmark-core.tsx:88-156 | the loop merges every plugin's toolbar into the base group and collects the insert menus, then adds sys in front when there are menus and functions at the end |
| Core.PluginGroupsStartWithBase | src/lib/editor/xmark-core.tsx:92-125 | after merging in the plugins' toolbars the base group is still first |
| Core.SysThenBase | src/lib/editor/xmark-core.tsx:126-140 | merging into the sys group puts sys first with the insert-card menu button ahead of any sys buttons, and base second |
| Core.FunctionsMerged | src/lib/editor/xmark-core.tsx:142-153 | merging in functions keeps every group's position and name, always has functions, and appends it last when absent |
| Core.ToolGroupsStart | src/lib/editor/xmark-core.tsx:92-140 | before functions, sys comes first iff some plugin has an insert menu, then base |
| Core.ToolsLayout | src/lib/editor/xmark-core.tsx:88-156 | the toolbar has sys first iff there is an insert menu, then base, and a functions group, last unless some plugin brings one |
| Core.ToolsSpec | src/lib/editor/xmark-core.tsx:88-156 | the toolbar on values; its contract is stated by `ToolsLayout` |
| Core.FirstHit | src/lib/editor/xmark-core.tsx:167-174 | the first present renderer that gives a result; every earlier one is missing or declines |
| Core.Dispatch | src/lib/editor/xmark-core.tsx:207-217 | the loop returns the first renderer's result, or the fallback when none gives one |
| Core.DeclinerIgnored | src/lib/editor/xmark-core.tsx:167-174 | a missing or declining renderer does not change the outcome |
| Core.FirstRendererWins | src/lib/editor/xmark-core.tsx:167-174 | a renderer that gives a view hides all later ones |
| Core.FirstHitShift | src/lib/editor/xmark-core.tsx:167-174 | after a run of declining renderers the search goes on into the next list, with positions shifted |
| Core.FirstHitFrom | src/lib/editor/xmark-core.tsx:167-174 | a search inside the second of two lists finds the same renderer, shifted |
| Core.RenderElement | src/lib/editor/xmark-core.tsx:164-177 | renderElement gives the first plugin's view, else a paragraph with the element's style |
| Core.RenderToolButton | src/lib/editor/xmark-core.tsx:207-217 | renderToolButton gives the first plugin's button, else the default tool button |
| Core.RenderLeaf | src/lib/editor/xmark-core.tsx:185-199 | renderLeaf applies every plugin's leaf renderer in plugin order to one shared style, keeping the latest children |
| Core.LeafRenderersInOrder | src/lib/editor/xmark-core.tsx:185-199 | with the base plugin first, a bold leaf is rendered with weight 700 whenever every later leaf renderer leaves `fontWeight` as it found it |
| Core.LeafFoldSkips | src/lib/editor/xmark-core.tsx:188-195 | plugins without a leaf renderer change neither the style nor the children |
| Core.LeafFoldKeeps | src/lib/editor/xmark-core.tsx:188-195 | a style property the earlier leaf renderers wrote reaches the end unchanged when no later renderer touches it |
| Core.LeafFold | src/lib/editor/xmark-core.tsx:185-199 | the leaf renderer fold; its contract is stated by `LeafRenderersInOrder` and `LeafFoldSkips` |
| Core.MakeEditor | src/lib/editor/xmark-core.tsx:225-238 | every plugin's install is applied in list order, and the editor gets the merged numbering schemes |
| Core.LastInstalledRunsFirst | src/lib/editor/xmark-core.tsx:229-234 | with each plugin wrapping the handlers before it, an event reaches the last-installed interceptor first and goes down the list until one handles it |
| Core.ChainTraceOrder | src/lib/editor/xmark-core.tsx:229-234 | the trace lists the plugins from the last one down, each once, to the highest that handles the event; when none does, all of them followed by the base handler's trace |
| Core.Installed | src/lib/editor/xmark-core.tsx:225-238 | the install chain; its contract is stated by `LastInstalledRunsFirst` and `ChainTraceOrder` |
| Image.FirstWithKey | src/lib/editor/plugins/image.tsx:377 | the first image whose key is the action's key; no earlier image has it; -1 when none does |
| Image.SyncAll | src/lib/editor/plugins/image.tsx:389-395 | every image, in order, takes its recorded upload address |
| Image.UnknownActionThrows | src/lib/editor/plugins/image.tsx:364-403 | the reducer fails exactly on an action that is not add, uploaded or set |
| Image.AddReplacesImages | src/lib/editor/plugins/image.tsx:371-375 | add replaces the images and keeps the recorded uploads |
| Image.UploadedLandsOnce | src/lib/editor/plugins/image.tsx:376-387 | an upload result sets the address of the first image with its key and changes nothing else; with no such image it is recorded instead |
| Image.SetAppliesUploads | src/lib/editor/plugins/image.tsx:388-399 | set takes the new images and keeps the recorded uploads; each image changes only in its address, an image whose nonempty key has a nonempty recorded upload takes that address, and every other image keeps its own |
| Image.EarlyUploadApplied | src/lib/editor/plugins/image.tsx:376-399 | an upload that finishes before its image is set is not lost: the image takes the address once set |
| Image.Reduce | src/lib/editor/plugins/image.tsx:364-403 | the reducer; its contract is stated by `UnknownActionThrows`, `AddReplacesImages`, `UploadedLandsOnce` and `SetAppliesUploads` |
| Image.LastIndexOf | src/lib/editor/plugins/image.tsx:340 | the last position of the character, -1 when absent |
| Image.GetFileName | src/lib/editor/plugins/image.tsx:339-345 | the name is the file name up to its last dot, or the whole name when it has no dot |
| Image.Swap | src/lib/editor/plugins/image.tsx:203-206 | two images change places and the others stay |
| Image.SwapPermutes | src/lib/editor/plugins/image.tsx:203-206 | a swap keeps the images as a multiset |
| Image.MovePrevKeepsImages | src/lib/editor/plugins/image.tsx:201-210 | moving back keeps the images as a multiset and the current image current, and moves it iff it is not first |
| Image.MoveNextKeepsImages | src/lib/editor/plugins/image.tsx:212-221 | moving forward keeps the images as a multiset and the current image current, and moves it iff it is not last |
| Image.MoveNextThenPrev | src/lib/editor/plugins/image.tsx:201-221 | moving forward and then back restores the carousel |
| Image.MovePrevSpec | src/lib/editor/plugins/image.tsx:201-210 | `movePrev` on a valid carousel; its contract is stated by `MovePrevKeepsImages` |
| Image.MoveNextSpec | src/lib/editor/plugins/image.tsx:212-221 | `moveNext` on a valid carousel; its contract is stated by `MoveNextKeepsImages` |
| Image.SetAt | src/lib/editor/plugins/image.tsx:203-206 | an array assignment as JavaScript does it: a negative index changes no element, one past the end extends the array with empty slots |
| Image.MovePrevAsWritten | src/lib/editor/plugins/image.tsx:201-210 | `movePrev` as written, with JavaScript's reads and writes at any index; its contract is stated by `MovesAsWrittenAgree` and `RemoveDropMoveLosesImage` |
| Image.MoveNextAsWritten | src/lib/editor/plugins/image.tsx:212-221 | `moveNext` as written, with JavaScript's reads and writes at any index; its contract is stated by `MovesAsWrittenAgree` and `RemoveDropMoveLosesImage` |
| Image.MovesAsWrittenAgree | src/lib/editor/plugins/image.tsx:201-221 | on a valid carousel the moves as written, with their `undefined` reads and writes, are the specified moves |
| Image.RemoveLastImageLeavesNoSelection | src/lib/editor/plugins/image.tsx:223-234 | as written, removing the only image is allowed and leaves an empty carousel with index -1 |
| Image.Splice1 | src/lib/editor/plugins/image.tsx:229 | `splice(start, 1)` as JavaScript does it: a negative start counts from the end, and a start past the end removes nothing |
| Image.RemoveAtMinusOneDropsLast | src/lib/editor/plugins/image.tsx:223-234 | as written, removing at index -1 drops the last image and leaves the index -1 |
| Image.RemoveImageAsWritten | src/lib/editor/plugins/image.tsx:223-234 | `removeImage` as written; its contract is stated by `RemoveLastImageLeavesNoSelection` and `RemoveAtMinusOneDropsLast` |
| Image.RemoveImageSpec | src/lib/editor/plugins/image.tsx:223-234 | the corrected removal; its contract is stated by `RemoveKeepsSelection` |
| Image.Dropped | src/lib/editor/plugins/image.tsx:236-251 | a dropped file becomes an image with its name as file, its name without extension as alt, the preview as address (empty when none) and a fresh key |
| Image.DropKeepsSelection | src/lib/editor/plugins/image.tsx:236-251 | a drop appends the new images after the old ones and keeps the current index, so a valid carousel stays valid on the same image |
| Image.RemoveDropMoveLosesImage | src/lib/editor/plugins/image.tsx:201-251 | as written, removing the only image, dropping one and moving forward leaves an empty slot in place of the image |
| Image.RemoveKeepsSelection | src/lib/editor/plugins/image.tsx:223-234 | the corrected removal refuses iff at most one image is left, and otherwise drops exactly the current image and keeps a valid current one |
| Image.Carousel.constructor | src/lib/editor/plugins/image.tsx:101-102 | the carousel starts at the first image, and is valid |
| Image.Carousel.MovePrev | src/lib/editor/plugins/image.tsx:201-210 | the state becomes the one movePrev specifies, and a valid carousel (a current image among the images) stays valid |
| Image.Carousel.MoveNext | src/lib/editor/plugins/image.tsx:212-221 | the state becomes the one moveNext specifies, and a valid carousel stays valid |
| Image.Carousel.RemoveImage | src/lib/editor/plugins/image.tsx:223-234 | the removal succeeds exactly when the corrected removal allows it and then applies it; a refused removal changes nothing; a valid carousel stays valid |
| Image.Carousel.Drop | src/lib/editor/plugins/image.tsx:236-251 | the state becomes the one the drop specifies, and a valid carousel stays valid |
| Url.WordPrefix | src/lib/utils/utils.ts:35 | the longest prefix of word characters: all of it are word characters and the next one is not |
| Url.PortPrefix | src/lib/utils/utils.ts:37 | the longest prefix of `:`, `?` and digits, and the next character is none of them |
| Url.WordPrefixOf | src/lib/utils/utils.ts:35 | the word prefix of word characters followed by a non-word character is exactly those characters |
| Url.PortPrefixOf | src/lib/utils/utils.ts:37 | the same for the port characters |
| Url.IndexOf | src/lib/utils/utils.ts:38 | the first position of the character, -1 when absent |
| Url.ProtocolMatchSpec | src/lib/utils/utils.ts:35 | the first regex matches with group r exactly when the string is `//` or word characters, `:` and `//`, followed by a nonempty r without white space |
| Url.ProtocolMatch | src/lib/utils/utils.ts:35 | the first regex; its contract is stated by `ProtocolMatchSpec` and `GroupNeverEmpty` |
| Url.GroupNeverEmpty | src/lib/utils/utils.ts:57-60 | the captured group is never empty, so the empty-group check never rejects |
| Url.LocalhostFormSpec | src/lib/utils/utils.ts:37 | the localhost regex holds exactly when the text is `localhost` and port characters, then nothing or a non-port character and no white space |
| Url.LocalhostForm | src/lib/utils/utils.ts:37 | the localhost regex; its contract is stated by `LocalhostFormSpec` and `LocalhostOnGroup` |
| Url.LocalhostOnGroup | src/lib/utils/utils.ts:37 | on text without white space the localhost regex holds iff the text starts with `localhost`: the port class constrains nothing |
| Url.LabelFormSpec | src/lib/utils/utils.ts:38 | the domain regex holds exactly when the text is a nonempty label without dots or white space, a dot, and at least two non-white-space characters |
| Url.LabelForm | src/lib/utils/utils.ts:38 | the domain regex; its contract is stated by `LabelFormSpec` |
| Url.IsUrlSpec | src/lib/utils/utils.ts:47-68 | isUrl holds exactly for a string matching the first regex whose group matches the localhost or the domain regex |
| Url.IsUrl | src/lib/utils/utils.ts:47-68 | `isUrl`; its contract is stated by `IsUrlSpec`, `NonStringNotUrl` and `UrlHasNoSpace` |
| Url.NonStringNotUrl | src/lib/utils/utils.ts:48-50 | anything but a string is not a url |
| Url.NoSpaceConcat | src/lib/utils/utils.ts:35 | a concatenation has no white space iff neither part has |
| Url.MatchHasNoSpace | src/lib/utils/utils.ts:35 | a string matching the first regex has no white space |
| Url.UrlHasNoSpace | src/lib/utils/utils.ts:47-68 | a url never contains white space |
| Url.SchemeSplit | src/lib/utils/utils.ts:35 | after a nonempty word scheme, `:` and `//` the rest is the group |
| Url.HttpGroup | src/lib/utils/utils.ts:35 | behind `http://` the text after the slashes is the whole rest, and the rest is the captured group exactly when it is nonempty and free of white space |
| Url.ExampleLabel | src/lib/utils/utils.ts:38 | `example.com` matches the domain regex |
| Url.ExampleLocalhost | src/lib/utils/utils.ts:37 | `localhost:3000` matches the localhost regex |
| Url.ExampleHttpDomain | src/lib/utils/utils.ts:47-68 | `http://example.com` is a url |
| Url.ExampleLocalhostPort | src/lib/utils/utils.ts:47-68 | `http://localhost:3000` is a url |
| Url.ExampleNoProtocol | src/lib/utils/utils.ts:52-55 | `example.com`, without `//`, is not a url |
| Url.ExampleShortTopLevel | src/lib/utils/utils.ts:38 | `http://a.b` is not a url: one character after the dot is too few |

## Left out

- React views, dialogs, toolbar widgets, the `onSave` callback, undo and redo history, and Slate's own normalisation loop. A repair that returns hands control back to Slate, which calls the rule again; the model is one call.
- Slate itself is not part of this model. Its `setNodes`, `wrapNodes`, `unwrapNodes`, `liftNodes`, `mergeNodes` and `removeNodes` are given the meaning the plugins rely on, as functions in `document.dfy` and the plugin files. Setting an attribute to the value it already has is a no-op, so the normalisers' "no repair" case is exact. When a command throws partway, the model reports the error and keeps the table as it was. This holds whether Slate throws or the plugin's own code does, such as a TypeError on a missing grid key (`MissingCell`) or a missing row (`MissingRow`). The transforms already applied before the throw are not modelled; the lines for InsertRow, AppendCol, InsertCol and SplitCell below name where that happens.
- ListPlugin.MergeWithPrevious: Slate's `mergeNodes` merges the item into the lowest block before it, found by descending through the last children of the previous node while they are blocks; that target is modelled, as are its three outcomes: two texts joined, two elements joined, or an empty target removed. Merging an element into a text node is an error. Void elements, mark merging and the normalisation that follows are not modelled.
- ListPlugin.BreakDecision: enter is modelled as the decision it takes. For the leave-list outcome the document change is modelled too (`BreakLeaveList`): Slate's `insertBreak` split, the lift and the paragraph type. The split-off copy is taken as empty, as the caret is at the end of an empty item, and its marks are not modelled. For the other outcomes only the decision is modelled.
- Shortcut.InsertText: `toggleBlock` and the list wrapping are issued commands. A prefix that is a key every object inherits (`constructor`, `toString`, `__proto__` and the like) finds a truthy entry in the table; `toggleBlock` then reads a type that is not there and throws, modelled as the command `ToggleFails`. Their effect on the document (`toggleBlock`, `isBlockActive`, `toggleList`, `cleanMarks`, `setBlockAlign` and `getBlockAlign` in `xmark-helper.ts`) is not part of this model. The shift key, read from `window.event`, is a parameter. Every element is taken to have a type: the tab branch's `type.startsWith` would throw on an element without one.
- Helper.ToggleMark, Helper.IsMarkActive: the marks are one map, as Slate keeps them for a caret. On an expanded selection `Editor.marks` reads the first selected text node and `addMark`/`removeMark` change every selected text node; that per-node effect is not modelled.
- Core.MergeTools works on values. The source copies `tools1` shallowly and assigns `buttons` on the group objects, so the groups of `tools1` and `tools2` passed in are themselves extended. Group names that are `Object` prototype keys, such as `constructor`, are not modelled; in the source the name map would already hold them. The same holds for upload keys in the image reducer's `uploadedMap`, and for a heading's `catNoType` in `updateCatalogNo`, where an inherited key finds a function without `generate` and the call throws.
- Plugins are values with optional members. The default plugin list is a parameter. `install` is a function on a handler record, and the install chain is observed through the trace of interceptors an event passes.
- Renumbering: the numbers are specified per heading. The depth-first order in which `updateCatalogNo` writes them is not modelled; as a heading's number depends only on earlier entries, the writes are the same. A catalog entry's `title` is carried along but not proved about. A non-string `catNo` is not modelled.
- MergeDeletesAbsorbed: stated for tables without negative spans, where no absorbed cell precedes the top-left one in its row. `MergeCellCount` holds for every table.
- MergeFillsTopLeft: stated for tables without negative spans and an ordered selection, which is what the table plugin passes (`PickedIsOrdered`).
- InsertRow (TableEditor.TableNode.InsertRow): on an error the contract keeps the old table. In the source, the column loop of `insertRow` issues `setNodes` on the cells it has already passed before a missing key throws a TypeError (table-editor.ts:133-153), so the rowSpan bumps of the earlier columns stay. The model does not capture these partial edits.
- AppendCol (TableEditor.TableNode.AppendCol): on `MissingRow` the contract keeps the old table. In the source, every existing row has already gained its new cell before `table.children[i]` throws (table-editor.ts:176-180).
- InsertCol (TableEditor.TableNode.InsertCol): on an error in row `i` the contract keeps the old table. In the source, the inserts and span growths of the rows before `i` stay (table-editor.ts:203-228).
- SplitCell (TableEditor.TableNode.SplitCell): on an error the contract keeps the old table. In the source, the inserts made before `getCellIndex` or `insertNodes` throws stay (table-editor.ts:368-377).
- Tables:
  - `insertTable`, `autoFitWidth`, `setColWidth` and `getTableData` are not part of this model.
  - Cell boxes from the DOM are inputs. `offsetWidth/2` is taken as an integer position, and a DOM `rowSpan` of `0` is not modelled.
  - Widths are integers; a `NaN` width is not modelled.
  - `deepcopy` is the identity on values.
- Image.MovePrevSpec, Image.MoveNextSpec: these say what the moves do on a valid carousel, whose index names an image, and change nothing otherwise. The index -1 is reachable in the source: removing the only image gives `([], -1)`, and a drop keeps the index. There the source swaps `undefined` into the array. `MovePrevAsWritten` and `MoveNextAsWritten` model that, through `GetAt` and `SetAt`, and `RemoveDropMoveLosesImage` shows the lost image.
- Image.Carousel.RemoveImage: the class follows the corrected removal, which refuses when one image is left, so its index stays valid (`Valid`) and its moves are the as-written ones (`MovesAsWrittenAgree`). The as-written removal is `RemoveImageAsWritten`, with JavaScript's `splice` for a negative start.
- Image.Dropped: in the source `src` is `pics[index]` whenever `pics` is given, so it is `undefined` for a file past the end of a shorter `pics`. The model's address is a string, the given preview or empty, and that `undefined` address is not represented.
- The image dialog's upload requests, file checks and messages are not modelled; an upload result is an action. `drawio` and the link dialog are not part of this model; the link dialog's check is `isUrl`.
- Url.IsUrl: the regular expressions have no `u` flag, so `\w` and `\d` are ASCII. `\S` excludes the full JavaScript white-space set, which is listed character by character. Strings are sequences of Unicode scalar values. A JavaScript string holding a lone surrogate half is outside the domain, and a character outside the Basic Multilingual Plane is one character here but two code units there.

## Findings

| source | as written | input that shows it | evidently intended | confidence | as-written member | corrected member |
|---|---|---|---|---|---|---|
| src/lib/editor/helpers/table-editor.ts:269-272 | `removeCol` removes `[i, cell.cellIndex]` in every row `i`, also in rows that a taller cell from an earlier row only reaches into | rows `[[A(rowSpan 2), B], [C]]`, remove column 0: row 1 loses `C`, which lies in column 1 | remove the covering cell once, at its own row | not executed | TableFacts.RemoveColAsWrittenDropsOtherCell (the command `TableNode.RemoveCol` follows this as-written removal; `TableFacts.RemoveColAsWrittenResult` states it for all tables) | TableFacts.RemoveColKeepsOtherCell |
| src/lib/editor/helpers/table-editor.ts:188-197 | `getCellIndex` counts the grid columns left of `colIndex` whose cell starts in the row, so a cell `colSpan` columns wide counts `colSpan` times | row `[X(colSpan 2), Y]`, column 2: gives 2, but `Y` is the row's child 1 | count the distinct cells of the row to the left | not executed | TableExamples.CellIndexAsWrittenOvercounts (the commands `insertCol` and `splitCell` are modelled with this count: `TableExamples.InsertColRightOfWideCellThrows`, `SplitSecondWideCellThrows`) | TableGrid.CellIndexCountsCells |
| src/lib/editor/plugins/image.tsx:223-234 | `removeImage` refuses only when `items.length <= 0`, although its message says the last image cannot be deleted | one image, index 0: the list becomes empty and the current index `-1`; after a drop and `moveNext` the dropped image is replaced by `undefined` | refuse when one image is left | not executed | Image.RemoveLastImageLeavesNoSelection (and `Image.RemoveDropMoveLosesImage`) | Image.RemoveKeepsSelection |
