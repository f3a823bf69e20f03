/**
 * The table editing commands of src/lib/editor/helpers/table-editor.ts.
 *
 * A table is its rows of cells plus the `data` side table of column widths
 * and row heights.  Each command is specified by a function from the table
 * before to the table after (or to the error the command throws), written as
 * the same column or row scan the source performs over the grid of
 * `getTableCells`; the class `TableNode` performs the command step by step on
 * its fields.  Slate paths `[...tablePath, row, index]` are (row, index)
 * pairs; an address Slate cannot resolve is the error `BadPath`.
 */
module TableEditor {
  import opened Wrappers
  import opened Document
  import opened TableGrid
  import Helper

  const DefaultRowHeight := 32
  const DefaultCellWidth := 100

  /** `TableData`: total width, one width per column, one height per row. */
  datatype TableData = TableData(width: int, cols: seq<int>, rows: seq<int>)

  datatype TableValue = TableValue(rows: Rows, data: TableData)

  /** Why a command throws: its own `Error`s, a TypeError on a missing key, or a bad Slate path. */
  datatype TableError =
    | LastRow               // 无法删除最后一行
    | LastCol               // 无法删除最后一列
    | SplitBeforeRemoveRow  // 请拆分单元格后再删除行
    | SplitBeforeRemoveCol  // 请拆分单元格后再删除列
    | NotFullySelected      // 请将单元格完整包含后再合并
    | MergeEmptiesRow       // 无法合并，请采用删除行方式编辑
    | MissingCell           // `cells["r,c"]` is undefined
    | MissingRow            // `table.children[i]` is undefined
    | BadPath               // Slate cannot resolve the path

  /** `{ type: 'td', children: [{ text: '' }] }`. */
  const EmptyCell := Cell(0, 0, [Text("", map[])])

  /** The corners of a selection (`SelectedCells`); -1 means unset. */
  datatype SelectedCells = SelectedCells(row1: int, col1: int, row2: int, col2: int)

  // ---------------------------------------------------------------------
  // Sequence and row edits
  // ---------------------------------------------------------------------

  /** Where `Array.prototype.splice(start, …)` starts on an array of length `len`. */
  function SpliceStart(len: nat, start: int): (k: nat)
    ensures k <= len
    ensures 0 <= start <= len ==> k == start
  {
    if start < 0 then (if len + start < 0 then 0 else len + start)
    else if start > len then len
    else start
  }

  /** `s.splice(start, 0, x)`. */
  function SpliceInsert<T>(s: seq<T>, start: int, x: T): (r: seq<T>)
    ensures |r| == |s| + 1 && r[SpliceStart(|s|, start)] == x
    ensures r[..SpliceStart(|s|, start)] == s[..SpliceStart(|s|, start)]
    ensures r[SpliceStart(|s|, start) + 1..] == s[SpliceStart(|s|, start)..]
  {
    var k := SpliceStart(|s|, start);
    s[..k] + [x] + s[k..]
  }

  /** `s.splice(start, 1)`. */
  function SpliceRemove<T>(s: seq<T>, start: int): (r: seq<T>)
    ensures SpliceStart(|s|, start) < |s| ==> |r| == |s| - 1
    ensures SpliceStart(|s|, start) == |s| ==> r == s
    ensures 0 <= start < |s| ==> r == s[..start] + s[start + 1..]
  {
    var k := SpliceStart(|s|, start);
    if k < |s| then s[..k] + s[k + 1..] else s
  }

  function Sum(s: seq<int>): int
  {
    if |s| == 0 then 0 else Sum(s[..|s| - 1]) + s[|s| - 1]
  }

  /** The number of cells in the table. */
  function TotalCells(rows: Rows): nat
  {
    if |rows| == 0 then 0 else TotalCells(rows[..|rows| - 1]) + |rows[|rows| - 1]|
  }

  predicate ValidCell(rows: Rows, i: int, k: int)
  {
    0 <= i < |rows| && 0 <= k < |rows[i]|
  }

  /** `Transforms.setNodes` on the cell at (i, k). */
  function SetCell(rows: Rows, i: int, k: int, c: Cell): (r: Result<Rows, TableError>)
    ensures r.Ok? <==> ValidCell(rows, i, k)
    ensures r.Ok? ==> r.value == rows[i := rows[i][k := c]]
  {
    if ValidCell(rows, i, k) then Ok(rows[i := rows[i][k := c]]) else Err(BadPath)
  }

  /** `Transforms.insertNodes` of a cell at (i, k); `k` may be the row's length. */
  function InsertCell(rows: Rows, i: int, k: int, c: Cell): (r: Result<Rows, TableError>)
    ensures r.Ok? <==> 0 <= i < |rows| && 0 <= k <= |rows[i]|
    ensures r.Ok? ==> |r.value| == |rows| && r.value[i] == rows[i][..k] + [c] + rows[i][k..]
    ensures r.Ok? ==> forall i' :: 0 <= i' < |rows| && i' != i ==> r.value[i'] == rows[i']
  {
    if 0 <= i < |rows| && 0 <= k <= |rows[i]| then Ok(rows[i := rows[i][..k] + [c] + rows[i][k..]]) else Err(BadPath)
  }

  /** `Transforms.removeNodes` of the cell at (i, k). */
  function RemoveCell(rows: Rows, i: int, k: int): (r: Result<Rows, TableError>)
    ensures r.Ok? <==> ValidCell(rows, i, k)
    ensures r.Ok? ==> |r.value| == |rows| && r.value[i] == rows[i][..k] + rows[i][k + 1..]
    ensures r.Ok? ==> forall i' :: 0 <= i' < |rows| && i' != i ==> r.value[i'] == rows[i']
  {
    if ValidCell(rows, i, k) then Ok(rows[i := rows[i][..k] + rows[i][k + 1..]]) else Err(BadPath)
  }

  /** Changing one row by `delta` cells changes the table's cell count by `delta`. */
  lemma {:induction false} TotalCellsUpdate(rows: Rows, i: nat, row: seq<Cell>)
    requires i < |rows|
    ensures TotalCells(rows[i := row]) == TotalCells(rows) - |rows[i]| + |row|
  {
    var n := |rows| - 1;
    if i < n {
      assert rows[i := row][..n] == rows[..n][i := row];
      TotalCellsUpdate(rows[..n], i, row);
    } else {
      assert rows[i := row][..n] == rows[..n];
    }
  }

  lemma {:induction false} TotalCellsAppend(rows: Rows, row: seq<Cell>)
    ensures TotalCells(rows + [row]) == TotalCells(rows) + |row|
  {
    assert (rows + [row])[..|rows|] == rows;
  }

  // ---------------------------------------------------------------------
  // appendRow (table-editor.ts:108-125)
  // ---------------------------------------------------------------------

  /** A row of `n` empty cells. */
  function EmptyRow(n: nat): (r: seq<Cell>)
    ensures |r| == n && forall k :: 0 <= k < n ==> r[k] == EmptyCell
  {
    seq(n, _ => EmptyCell)
  }

  function AppendRowSpec(t: TableValue): TableValue
  {
    TableValue(t.rows + [EmptyRow(|t.data.cols|)], t.data.(rows := t.data.rows + [DefaultRowHeight]))
  }

  /** `appendRow` adds one empty cell per column and one row height of 32; nothing else changes. */
  lemma AppendRowEffect(t: TableValue)
    ensures var t' := AppendRowSpec(t);
            && |t'.rows| == |t.rows| + 1 && t'.rows[..|t.rows|] == t.rows
            && |t'.rows[|t.rows|]| == |t.data.cols|
            && (forall k :: 0 <= k < |t.data.cols| ==> t'.rows[|t.rows|][k] == EmptyCell)
            && TotalCells(t'.rows) == TotalCells(t.rows) + |t.data.cols|
            && t'.data.rows == t.data.rows + [DefaultRowHeight]
            && t'.data.cols == t.data.cols && t'.data.width == t.data.width
  {
    TotalCellsAppend(t.rows, EmptyRow(|t.data.cols|));
  }

  // ---------------------------------------------------------------------
  // insertRow (table-editor.ts:127-170)
  // ---------------------------------------------------------------------

  /** Whether column's covering cell `d` gets a new cell rather than a taller span. */
  predicate RowInserts(d: Desc, rowIndex: int, above: bool)
  {
    if above then d.rowIndex == rowIndex else !(d.rowIndex + d.rowSpan > rowIndex + 1)
  }

  /** The loop over the first `n` columns: the rows with grown spans and the new row's cells. */
  function InsertRowScan(g: Grid, rows: Rows, rowIndex: int, above: bool, n: nat): Result<(Rows, seq<Cell>), TableError>
  {
    if n == 0 then Ok((rows, []))
    else match InsertRowScan(g, rows, rowIndex, above, n - 1)
      case Err(e) => Err(e)
      case Ok(acc) =>
        if (rowIndex, n - 1) !in g then Err(MissingCell)
        else
          var d := g[(rowIndex, n - 1)];
          if RowInserts(d, rowIndex, above) then Ok((acc.0, acc.1 + [EmptyCell]))
          else if !ValidCell(acc.0, d.rowIndex, d.cellIndex) then Err(BadPath)
          else
            var cell := acc.0[d.rowIndex][d.cellIndex];
            Ok((acc.0[d.rowIndex := acc.0[d.rowIndex][d.cellIndex := cell.(rowSpan := d.rowSpan + 1)]], acc.1))
  }

  /** The index at which the new row goes. */
  function NewRowIndex(rowIndex: int, above: bool): int
  {
    if above then rowIndex else rowIndex + 1
  }

  function InsertRowSpec(t: TableValue, rowIndex: int, above: bool): Result<TableValue, TableError>
  {
    match InsertRowScan(CellMap(t.rows), t.rows, rowIndex, above, |t.data.cols|)
    case Err(e) => Err(e)
    case Ok(acc) =>
      var at := NewRowIndex(rowIndex, above);
      if !(0 <= at <= |acc.0|) then Err(BadPath)
      else Ok(TableValue(acc.0[..at] + [acc.1] + acc.0[at..], t.data.(rows := SpliceInsert(t.data.rows, at, DefaultRowHeight))))
  }

  // ---------------------------------------------------------------------
  // appendCol (table-editor.ts:172-186)
  // ---------------------------------------------------------------------

  function AppendColSpec(t: TableValue): Result<TableValue, TableError>
  {
    if |t.data.rows| > |t.rows| then Err(MissingRow)
    else
      var rows' := seq(|t.rows|, i requires 0 <= i < |t.rows| => if i < |t.data.rows| then t.rows[i] + [EmptyCell] else t.rows[i]);
      Ok(TableValue(rows', t.data.(cols := t.data.cols + [DefaultCellWidth], width := t.data.width + DefaultCellWidth)))
  }

  // ---------------------------------------------------------------------
  // insertCol (table-editor.ts:198-236)
  // ---------------------------------------------------------------------

  /** Whether row's covering cell `d` gets a new cell rather than a wider span. */
  predicate ColInserts(d: Desc, colIndex: int, left: bool)
  {
    if left then d.colIndex == colIndex else !(d.colIndex + d.colSpan > colIndex + 1)
  }

  /** The loop over the first `n` rows. */
  function InsertColScan(g: Grid, rows: Rows, colIndex: int, left: bool, n: nat): Result<Rows, TableError>
  {
    if n == 0 then Ok(rows)
    else match InsertColScan(g, rows, colIndex, left, n - 1)
      case Err(e) => Err(e)
      case Ok(acc) => InsertColRow(g, acc, colIndex, left, n - 1)
  }

  /** The loop body for row `i`: a new cell, or the covering cell one column wider. */
  function InsertColRow(g: Grid, acc: Rows, colIndex: int, left: bool, i: int): Result<Rows, TableError>
  {
    if (i, colIndex) !in g then Err(MissingCell)
    else
      var d := g[(i, colIndex)];
      if ColInserts(d, colIndex, left) then
        match CountStarting(g, i, colIndex)
        case None => Err(MissingCell)
        case Some(k) => InsertCell(acc, i, if left then k else k + 1, EmptyCell)
      else if !ValidCell(acc, d.rowIndex, d.cellIndex) then Err(BadPath)
      else
        var cell := acc[d.rowIndex][d.cellIndex];
        Ok(acc[d.rowIndex := acc[d.rowIndex][d.cellIndex := cell.(colSpan := d.colSpan + 1)]])
  }

  function InsertColSpec(t: TableValue, colIndex: int, left: bool): Result<TableValue, TableError>
  {
    match InsertColScan(CellMap(t.rows), t.rows, colIndex, left, |t.data.rows|)
    case Err(e) => Err(e)
    case Ok(rows') =>
      Ok(TableValue(rows', t.data.(cols := SpliceInsert(t.data.cols, colIndex, DefaultCellWidth), width := t.data.width + DefaultCellWidth)))
  }

  // ---------------------------------------------------------------------
  // removeRow (table-editor.ts:237-255)
  // ---------------------------------------------------------------------

  /** The check loop over the first `n` columns: the first error it throws, if any. */
  function RemoveRowCheck(g: Grid, rowIndex: int, n: nat): Option<TableError>
  {
    if n == 0 then None
    else match RemoveRowCheck(g, rowIndex, n - 1)
      case Some(e) => Some(e)
      case None =>
        if (rowIndex, n - 1) !in g then Some(MissingCell)
        else if g[(rowIndex, n - 1)].rowSpan > 1 then Some(SplitBeforeRemoveRow)
        else None
  }

  function RemoveRowSpec(t: TableValue, rowIndex: int): Result<TableValue, TableError>
  {
    if |t.data.rows| == 1 then Err(LastRow)
    else match RemoveRowCheck(CellMap(t.rows), rowIndex, |t.data.cols|)
      case Some(e) => Err(e)
      case None =>
        if !(0 <= rowIndex < |t.rows|) then Err(BadPath)
        else Ok(TableValue(t.rows[..rowIndex] + t.rows[rowIndex + 1..], t.data.(rows := SpliceRemove(t.data.rows, rowIndex))))
  }

  // ---------------------------------------------------------------------
  // removeCol (table-editor.ts:256-282)
  // ---------------------------------------------------------------------

  function RemoveColCheck(g: Grid, colIndex: int, n: nat): Option<TableError>
  {
    if n == 0 then None
    else match RemoveColCheck(g, colIndex, n - 1)
      case Some(e) => Some(e)
      case None =>
        if (n - 1, colIndex) !in g then Some(MissingCell)
        else if g[(n - 1, colIndex)].colSpan > 1 then Some(SplitBeforeRemoveCol)
        else None
  }

  /**
   * The removal loop over the first `n` rows as written: row `i` loses its
   * child `cells[i,colIndex].cellIndex`, even when that cell starts in an
   * earlier row (the index then names some other cell of row `i`).
   */
  function RemoveColCellsAsWritten(g: Grid, rows: Rows, colIndex: int, n: nat): Result<Rows, TableError>
  {
    if n == 0 then Ok(rows)
    else match RemoveColCellsAsWritten(g, rows, colIndex, n - 1)
      case Err(e) => Err(e)
      case Ok(acc) =>
        if (n - 1, colIndex) !in g then Err(MissingCell)
        else RemoveCell(acc, n - 1, g[(n - 1, colIndex)].cellIndex)
  }

  /**
   * The removal loop as intended: row `i` loses the cell covering the column
   * only when that cell starts in row `i`; a cell reaching down into row `i`
   * has already gone with its own row.
   */
  function RemoveColCells(g: Grid, rows: Rows, colIndex: int, n: nat): Result<Rows, TableError>
  {
    if n == 0 then Ok(rows)
    else match RemoveColCells(g, rows, colIndex, n - 1)
      case Err(e) => Err(e)
      case Ok(acc) =>
        if (n - 1, colIndex) !in g then Err(MissingCell)
        else if g[(n - 1, colIndex)].rowIndex != n - 1 then Ok(acc)
        else RemoveCell(acc, n - 1, g[(n - 1, colIndex)].cellIndex)
  }

  /** `removeCol` around a given outcome of the removal loop. */
  function RemoveColOutcome(t: TableValue, colIndex: int, removed: Result<Rows, TableError>): Result<TableValue, TableError>
  {
    if |t.data.cols| == 1 then Err(LastCol)
    else match RemoveColCheck(CellMap(t.rows), colIndex, |t.data.rows|)
      case Some(e) => Err(e)
      case None =>
        match removed
        case Err(e) => Err(e)
        case Ok(rows') =>
          var cols' := SpliceRemove(t.data.cols, colIndex);
          Ok(TableValue(rows', t.data.(cols := cols', width := Sum(cols'))))
  }

  function RemoveColSpecAsWritten(t: TableValue, colIndex: int): Result<TableValue, TableError>
  {
    RemoveColOutcome(t, colIndex, RemoveColCellsAsWritten(CellMap(t.rows), t.rows, colIndex, |t.data.rows|))
  }

  function RemoveColSpec(t: TableValue, colIndex: int): Result<TableValue, TableError>
  {
    RemoveColOutcome(t, colIndex, RemoveColCells(CellMap(t.rows), t.rows, colIndex, |t.data.rows|))
  }

  // ---------------------------------------------------------------------
  // mergeCells (table-editor.ts:284-361)
  // ---------------------------------------------------------------------

  /** The cells to merge in row-major order, and per row how many of its cells go. */
  datatype MergePlan = MergePlan(merged: seq<Desc>, removeCount: map<int, nat>)

  /** The cell's rectangle lies inside the selection. */
  predicate Contained(d: Desc, sel: SelectedCells)
  {
    !(d.rowIndex < sel.row1 || d.rowIndex + d.rowSpan - 1 > sel.row2
      || d.colIndex < sel.col1 || d.colIndex + d.colSpan - 1 > sel.col2)
  }

  function Removed(m: map<int, nat>, i: int): nat
  {
    if i in m then m[i] else 0
  }

  /** One visit of the scan at (i, j). */
  function MergeVisit(plan: MergePlan, g: Grid, sel: SelectedCells, lt: Desc, i: int, j: int): Result<MergePlan, TableError>
  {
    if (i, j) !in g then Err(MissingCell)
    else
      var d := g[(i, j)];
      if !Contained(d, sel) then Err(NotFullySelected)
      else if d != lt && i == d.rowIndex && j == d.colIndex then
        Ok(MergePlan(plan.merged + [d], plan.removeCount[i := Removed(plan.removeCount, i) + 1]))
      else Ok(plan)
  }

  /** The inner loop: columns col1 .. col1+n-1 of row `i`. */
  function MergeScanRow(plan: MergePlan, g: Grid, sel: SelectedCells, lt: Desc, i: int, n: nat): Result<MergePlan, TableError>
  {
    if n == 0 then Ok(plan)
    else match MergeScanRow(plan, g, sel, lt, i, n - 1)
      case Err(e) => Err(e)
      case Ok(p) => MergeVisit(p, g, sel, lt, i, sel.col1 + n - 1)
  }

  /** The outer loop: rows row1 .. row1+n-1. */
  function MergeScan(g: Grid, sel: SelectedCells, lt: Desc, n: nat): Result<MergePlan, TableError>
  {
    if n == 0 then Ok(MergePlan([], map[]))
    else match MergeScan(g, sel, lt, n - 1)
      case Err(e) => Err(e)
      case Ok(p) => MergeScanRow(p, g, sel, lt, sel.row1 + n - 1, Count(sel.col2 - sel.col1 + 1))
  }

  /** `removeCount[i] === table.children[i].children.length` for some row. */
  predicate EmptiesRow(plan: MergePlan, rows: Rows)
  {
    exists i :: 0 <= i < |rows| && i in plan.removeCount && plan.removeCount[i] == |rows[i]|
  }

  /** A cell's children, with a non-block first child wrapped in a paragraph. */
  function ParagraphContent(content: seq<Node>): Option<seq<Node>>
  {
    if |content| > 0 && IsBlock(content[0]) then Some(content) else Helper.SetContentType(content, Paragraph)
  }

  /** The children the first `n` merged cells contribute, in order. */
  function MergedContent(rows: Rows, merged: seq<Desc>, n: nat): Result<seq<Node>, TableError>
    requires n <= |merged|
  {
    if n == 0 then Ok([])
    else match MergedContent(rows, merged, n - 1)
      case Err(e) => Err(e)
      case Ok(acc) =>
        var d := merged[n - 1];
        if !ValidCell(rows, d.rowIndex, d.cellIndex) then Err(BadPath)
        else match ParagraphContent(rows[d.rowIndex][d.cellIndex].content)
          case None => Err(BadPath)
          case Some(c) => Ok(acc + c)
  }

  /** The cell indexes of row `i` that the merge deletes. */
  function RemovedIn(merged: seq<Desc>, i: int): set<int>
  {
    set d | d in merged && d.rowIndex == i :: d.cellIndex
  }

  /** The cells of `row` whose index is not in `ks`, in order. */
  function Without(row: seq<Cell>, ks: set<int>): (r: seq<Cell>)
    ensures |r| <= |row|
  {
    if |row| == 0 then []
    else Without(row[..|row| - 1], ks) + (if |row| - 1 in ks then [] else [row[|row| - 1]])
  }

  /** Every row without the merged cells that start in it. */
  function Prune(rows: Rows, merged: seq<Desc>): (r: Rows)
    ensures |r| == |rows| && forall i :: 0 <= i < |rows| ==> r[i] == Without(rows[i], RemovedIn(merged, i))
  {
    seq(|rows|, i requires 0 <= i < |rows| => Without(rows[i], RemovedIn(merged, i)))
  }

  function MergeSpec(t: TableValue, sel: SelectedCells): Result<TableValue, TableError>
  {
    if sel.row1 == sel.row2 && sel.col1 == sel.col2 then Ok(t)
    else
      var g := CellMap(t.rows);
      if (sel.row1, sel.col1) !in g || (sel.row2, sel.col2) !in g then Ok(t)
      else
        var lt := g[(sel.row1, sel.col1)];
        var rb := g[(sel.row2, sel.col2)];
        match MergeScan(g, sel, lt, Count(sel.row2 - sel.row1 + 1))
        case Err(e) => Err(e)
        case Ok(plan) =>
          match MergeApply(t.rows, lt, rb, plan)
          case Err(e) => Err(e)
          case Ok(rows') => Ok(TableValue(rows', t.data))
  }

  /**
   * What `mergeCells` does after the scan: the empty-row check, moving the
   * contents into the top-left cell `lt`, deleting the merged cells and
   * spanning `lt` to the far corner of `rb`.
   */
  function MergeApply(rows: Rows, lt: Desc, rb: Desc, plan: MergePlan): Result<Rows, TableError>
  {
    if EmptiesRow(plan, rows) then Err(MergeEmptiesRow)
    else if !ValidCell(rows, lt.rowIndex, lt.cellIndex) then Err(BadPath)
    else
      var target := rows[lt.rowIndex][lt.cellIndex];
      match ParagraphContent(target.content)
      case None => Err(BadPath)
      case Some(kept) =>
        match MergedContent(rows, plan.merged, |plan.merged|)
        case Err(e) => Err(e)
        case Ok(moved) =>
          var filled := rows[lt.rowIndex := rows[lt.rowIndex][lt.cellIndex := target.(content := kept + moved)]];
          var pruned := Prune(filled, plan.merged);
          if !ValidCell(pruned, lt.rowIndex, lt.cellIndex) then Err(BadPath)
          else
            var c := pruned[lt.rowIndex][lt.cellIndex];
            var c' := c.(rowSpan := rb.rowIndex + rb.rowSpan - lt.rowIndex, colSpan := rb.colIndex + rb.colSpan - lt.colIndex);
            Ok(pruned[lt.rowIndex := pruned[lt.rowIndex][lt.cellIndex := c']])
  }

  // ---------------------------------------------------------------------
  // splitCell (table-editor.ts:363-384)
  // ---------------------------------------------------------------------

  /** Row `i` of the cell's rectangle: new cells for columns 0 .. n-1 (not the origin). */
  function SplitRow(g: Grid, d: Desc, rows: Rows, i: nat, n: nat): Result<Rows, TableError>
  {
    if n == 0 then Ok(rows)
    else match SplitRow(g, d, rows, i, n - 1)
      case Err(e) => Err(e)
      case Ok(acc) => SplitAt(g, d, acc, i, n - 1)
  }

  /** The loop body for column `j` of row `i`: an empty cell at the index `getCellIndex` gives. */
  function SplitAt(g: Grid, d: Desc, acc: Rows, i: nat, j: nat): Result<Rows, TableError>
  {
    if i == 0 && j == 0 then Ok(acc)
    else match CountStarting(g, d.rowIndex + i, d.colIndex + j)
      case None => Err(MissingCell)
      case Some(k) => InsertCell(acc, d.rowIndex + i, k, EmptyCell)
  }

  function SplitRows(g: Grid, d: Desc, rows: Rows, n: nat): Result<Rows, TableError>
  {
    if n == 0 then Ok(rows)
    else match SplitRows(g, d, rows, n - 1)
      case Err(e) => Err(e)
      case Ok(acc) => SplitRow(g, d, acc, n - 1, Count(d.colSpan))
  }

  function SplitSpec(t: TableValue, rowIndex: int, colIndex: int): Result<TableValue, TableError>
  {
    var g := CellMap(t.rows);
    if (rowIndex, colIndex) !in g then Err(MissingCell)
    else
      var d := g[(rowIndex, colIndex)];
      match SplitRows(g, d, t.rows, Count(d.rowSpan))
      case Err(e) => Err(e)
      case Ok(rows') =>
        if !ValidCell(rows', d.rowIndex, d.cellIndex) then Err(BadPath)
        else
          var c := rows'[d.rowIndex][d.cellIndex];
          Ok(TableValue(rows'[d.rowIndex := rows'[d.rowIndex][d.cellIndex := c.(rowSpan := 1, colSpan := 1)]], t.data))
  }

  // ---------------------------------------------------------------------
  // A failing step fails the whole scan
  // ---------------------------------------------------------------------

  lemma {:induction false} InsertRowScanFails(g: Grid, rows: Rows, r: int, above: bool, a: nat, b: nat)
    requires a <= b && InsertRowScan(g, rows, r, above, a).Err?
    ensures InsertRowScan(g, rows, r, above, b) == InsertRowScan(g, rows, r, above, a)
    decreases b
  {
    if a < b {
      InsertRowScanFails(g, rows, r, above, a, b - 1);
    }
  }

  lemma {:induction false} InsertColScanFails(g: Grid, rows: Rows, c: int, left: bool, a: nat, b: nat)
    requires a <= b && InsertColScan(g, rows, c, left, a).Err?
    ensures InsertColScan(g, rows, c, left, b) == InsertColScan(g, rows, c, left, a)
    decreases b
  {
    if a < b {
      InsertColScanFails(g, rows, c, left, a, b - 1);
    }
  }

  lemma {:induction false} RemoveRowCheckFails(g: Grid, r: int, a: nat, b: nat)
    requires a <= b && RemoveRowCheck(g, r, a).Some?
    ensures RemoveRowCheck(g, r, b) == RemoveRowCheck(g, r, a)
    decreases b
  {
    if a < b {
      RemoveRowCheckFails(g, r, a, b - 1);
    }
  }

  lemma {:induction false} RemoveColCheckFails(g: Grid, c: int, a: nat, b: nat)
    requires a <= b && RemoveColCheck(g, c, a).Some?
    ensures RemoveColCheck(g, c, b) == RemoveColCheck(g, c, a)
    decreases b
  {
    if a < b {
      RemoveColCheckFails(g, c, a, b - 1);
    }
  }

  lemma {:induction false} RemoveColCellsAsWrittenFails(g: Grid, rows: Rows, c: int, a: nat, b: nat)
    requires a <= b && RemoveColCellsAsWritten(g, rows, c, a).Err?
    ensures RemoveColCellsAsWritten(g, rows, c, b) == RemoveColCellsAsWritten(g, rows, c, a)
    decreases b
  {
    if a < b {
      RemoveColCellsAsWrittenFails(g, rows, c, a, b - 1);
    }
  }

  lemma {:induction false} MergeScanRowFails(p: MergePlan, g: Grid, sel: SelectedCells, lt: Desc, i: int, a: nat, b: nat)
    requires a <= b && MergeScanRow(p, g, sel, lt, i, a).Err?
    ensures MergeScanRow(p, g, sel, lt, i, b) == MergeScanRow(p, g, sel, lt, i, a)
    decreases b
  {
    if a < b {
      MergeScanRowFails(p, g, sel, lt, i, a, b - 1);
    }
  }

  lemma {:induction false} MergeScanFails(g: Grid, sel: SelectedCells, lt: Desc, a: nat, b: nat)
    requires a <= b && MergeScan(g, sel, lt, a).Err?
    ensures MergeScan(g, sel, lt, b) == MergeScan(g, sel, lt, a)
    decreases b
  {
    if a < b {
      MergeScanFails(g, sel, lt, a, b - 1);
    }
  }

  lemma {:induction false} MergedContentFails(rows: Rows, merged: seq<Desc>, a: nat, b: nat)
    requires a <= b <= |merged| && MergedContent(rows, merged, a).Err?
    ensures MergedContent(rows, merged, b) == MergedContent(rows, merged, a)
    decreases b
  {
    if a < b {
      MergedContentFails(rows, merged, a, b - 1);
    }
  }

  lemma {:induction false} SplitRowFails(g: Grid, d: Desc, rows: Rows, i: nat, a: nat, b: nat)
    requires a <= b && SplitRow(g, d, rows, i, a).Err?
    ensures SplitRow(g, d, rows, i, b) == SplitRow(g, d, rows, i, a)
    decreases b
  {
    if a < b {
      SplitRowFails(g, d, rows, i, a, b - 1);
    }
  }

  lemma {:induction false} SplitRowsFails(g: Grid, d: Desc, rows: Rows, a: nat, b: nat)
    requires a <= b && SplitRows(g, d, rows, a).Err?
    ensures SplitRows(g, d, rows, b) == SplitRows(g, d, rows, a)
    decreases b
  {
    if a < b {
      SplitRowsFails(g, d, rows, a, b - 1);
    }
  }

  // ---------------------------------------------------------------------
  // The table node in the editor, edited in place
  // ---------------------------------------------------------------------

  /** A command either commits the specified table or throws and leaves the table as it was. */
  predicate Applied(res: Result<TableValue, TableError>, before: TableValue, after: TableValue, err: Option<TableError>)
  {
    match res
    case Ok(t) => err == None && after == t
    case Err(e) => err == Some(e) && after == before
  }

  /** The row-major scan of `mergeCells` over the selected rectangle. */
  method ScanMerge(cells: Grid, sel: SelectedCells, lt: Desc) returns (res: Result<MergePlan, TableError>)
    ensures res == MergeScan(cells, sel, lt, Count(sel.row2 - sel.row1 + 1))
  {
    var rowCount := Count(sel.row2 - sel.row1 + 1);
    var colCount := Count(sel.col2 - sel.col1 + 1);
    var merged: seq<Desc> := [];
    var removeCount: map<int, nat> := map[];
    var i := sel.row1;
    while i <= sel.row2
      invariant sel.row1 <= i && i - sel.row1 <= rowCount
      invariant MergeScan(cells, sel, lt, i - sel.row1) == Ok(MergePlan(merged, removeCount))
    {
      ghost var start := MergePlan(merged, removeCount);
      var j := sel.col1;
      while j <= sel.col2
        invariant sel.col1 <= j && j - sel.col1 <= colCount
        invariant MergeScanRow(start, cells, sel, lt, i, j - sel.col1) == Ok(MergePlan(merged, removeCount))
      {
        if (i, j) !in cells {
          MergeScanRowFails(start, cells, sel, lt, i, j - sel.col1 + 1, colCount);
          MergeScanFails(cells, sel, lt, i - sel.row1 + 1, rowCount);
          return Err(MissingCell);
        }
        var cell := cells[(i, j)];
        if cell.rowIndex < sel.row1 || cell.rowIndex + cell.rowSpan - 1 > sel.row2
          || cell.colIndex < sel.col1 || cell.colIndex + cell.colSpan - 1 > sel.col2
        {
          MergeScanRowFails(start, cells, sel, lt, i, j - sel.col1 + 1, colCount);
          MergeScanFails(cells, sel, lt, i - sel.row1 + 1, rowCount);
          return Err(NotFullySelected);
        }
        if cell != lt && i == cell.rowIndex && j == cell.colIndex {
          merged := merged + [cell];
          removeCount := removeCount[i := (if i in removeCount then removeCount[i] else 0) + 1];
        }
        j := j + 1;
      }
      i := i + 1;
    }
    return Ok(MergePlan(merged, removeCount));
  }

  /** The children the merged cells hand to the top-left cell, each with a paragraph first. */
  method MoveContent(rows: Rows, merged: seq<Desc>) returns (res: Result<seq<Node>, TableError>)
    ensures res == MergedContent(rows, merged, |merged|)
  {
    var moved: seq<Node> := [];
    var m := 0;
    while m < |merged|
      invariant 0 <= m <= |merged|
      invariant MergedContent(rows, merged, m) == Ok(moved)
    {
      var d := merged[m];
      if !ValidCell(rows, d.rowIndex, d.cellIndex) {
        MergedContentFails(rows, merged, m + 1, |merged|);
        return Err(BadPath);
      }
      var c := ParagraphContent(rows[d.rowIndex][d.cellIndex].content);
      if c.None? {
        MergedContentFails(rows, merged, m + 1, |merged|);
        return Err(BadPath);
      }
      moved := moved + c.value;
      m := m + 1;
    }
    return Ok(moved);
  }

  /** The part of `mergeCells` after the scan, on the rows of the table. */
  method ApplyMerge(rows: Rows, lt: Desc, rb: Desc, plan: MergePlan) returns (res: Result<Rows, TableError>)
    ensures res == MergeApply(rows, lt, rb, plan)
  {
    var merged := plan.merged;
    var removeCount := plan.removeCount;
    var r := 0;
    while r < |rows|
      invariant 0 <= r <= |rows|
      invariant forall r' :: 0 <= r' < r ==> !(r' in removeCount && removeCount[r'] == |rows[r']|)
    {
      if r in removeCount && removeCount[r] == |rows[r]| {
        return Err(MergeEmptiesRow);
      }
      r := r + 1;
    }
    if !ValidCell(rows, lt.rowIndex, lt.cellIndex) {
      return Err(BadPath);
    }
    var target := rows[lt.rowIndex][lt.cellIndex];
    var kept := ParagraphContent(target.content);
    if kept.None? {
      return Err(BadPath);
    }
    // The second scan of the rectangle visits the merged cells in the same order.
    var moved := MoveContent(rows, merged);
    if moved.Err? {
      return Err(moved.error);
    }
    var filled := rows[lt.rowIndex := rows[lt.rowIndex][lt.cellIndex := target.(content := kept.value + moved.value)]];
    var pruned := Prune(filled, merged);
    if !ValidCell(pruned, lt.rowIndex, lt.cellIndex) {
      return Err(BadPath);
    }
    var c := pruned[lt.rowIndex][lt.cellIndex];
    var c' := c.(rowSpan := rb.rowIndex + rb.rowSpan - lt.rowIndex, colSpan := rb.colIndex + rb.colSpan - lt.colIndex);
    return Ok(pruned[lt.rowIndex := pruned[lt.rowIndex][lt.cellIndex := c']]);
  }

  /**
   * The column loop of `insertRow` over the first `n` columns: each cell
   * either contributes an empty cell to the new row or has its row span grown.
   */
  method ScanInsertRow(cells: Grid, rows: Rows, rowIndex: int, above: bool, n: nat) returns (res: Result<(Rows, seq<Cell>), TableError>)
    ensures res == InsertRowScan(cells, rows, rowIndex, above, n)
  {
    var work := rows;
    var row: seq<Cell> := [];
    var i := 0;
    while i < n
      invariant 0 <= i <= n
      invariant InsertRowScan(cells, rows, rowIndex, above, i) == Ok((work, row))
    {
      if (rowIndex, i) !in cells {
        InsertRowScanFails(cells, rows, rowIndex, above, i + 1, n);
        return Err(MissingCell);
      }
      var cell := cells[(rowIndex, i)];
      var insert := true;
      if above {
        if cell.rowIndex != rowIndex {
          insert := false;
        }
      } else {
        if cell.rowIndex + cell.rowSpan > rowIndex + 1 {
          insert := false;
        }
      }
      if insert {
        row := row + [EmptyCell];
      } else {
        if !ValidCell(work, cell.rowIndex, cell.cellIndex) {
          InsertRowScanFails(cells, rows, rowIndex, above, i + 1, n);
          return Err(BadPath);
        }
        var c := work[cell.rowIndex][cell.cellIndex];
        work := work[cell.rowIndex := work[cell.rowIndex][cell.cellIndex := c.(rowSpan := cell.rowSpan + 1)]];
      }
      i := i + 1;
    }
    return Ok((work, row));
  }

  /** The inner loop of `splitCell` for row `i` of the rectangle: an empty cell per column but the origin. */
  method SplitRowInserts(cells: Grid, cell: Desc, start: Rows, i: nat) returns (res: Result<Rows, TableError>)
    ensures res == SplitRow(cells, cell, start, i, Count(cell.colSpan))
  {
    var work := start;
    var j := 0;
    while j < cell.colSpan
      invariant 0 <= j && (cell.colSpan >= 0 ==> j <= cell.colSpan)
      invariant cell.colSpan < 0 ==> j == 0
      invariant SplitRow(cells, cell, start, i, j) == Ok(work)
    {
      if i == 0 && j == 0 {
        j := j + 1;
        continue;
      }
      var k := GetCellIndex(cells, cell.rowIndex + i, cell.colIndex + j);
      if k.None? || !(0 <= cell.rowIndex + i < |work| && k.value <= |work[cell.rowIndex + i]|) {
        assert SplitRow(cells, cell, start, i, j + 1).Err?;
        SplitRowFails(cells, cell, start, i, j + 1, Count(cell.colSpan));
        return if k.None? then Err(MissingCell) else Err(BadPath);
      }
      var r := cell.rowIndex + i;
      work := work[r := work[r][..k.value] + [EmptyCell] + work[r][k.value..]];
      j := j + 1;
    }
    return Ok(work);
  }

  /** The nested loops of `splitCell`: an empty cell for every position of the rectangle but its origin. */
  method SplitInserts(cells: Grid, cell: Desc, rows: Rows) returns (res: Result<Rows, TableError>)
    ensures res == SplitRows(cells, cell, rows, Count(cell.rowSpan))
  {
    var work := rows;
    var i := 0;
    while i < cell.rowSpan
      invariant 0 <= i && (cell.rowSpan >= 0 ==> i <= cell.rowSpan)
      invariant cell.rowSpan < 0 ==> i == 0
      invariant SplitRows(cells, cell, rows, i) == Ok(work)
    {
      var next := SplitRowInserts(cells, cell, work, i);
      if next.Err? {
        SplitRowsFails(cells, cell, rows, i + 1, Count(cell.rowSpan));
        return next;
      }
      work := next.value;
      i := i + 1;
    }
    return Ok(work);
  }

  /** A table element of the document: its rows of cells and its `data`. */
  class TableNode {
    var rows: Rows
    var data: TableData

    function Value(): TableValue
      reads this
    {
      TableValue(rows, data)
    }

    constructor (rows: Rows, data: TableData)
      ensures Value() == TableValue(rows, data)
    {
      this.rows := rows;
      this.data := data;
    }

    /** `appendRow`. */
    method AppendRow()
      modifies this
      ensures Value() == AppendRowSpec(old(Value()))
    {
      var row: seq<Cell> := [];
      var i := 0;
      while i < |data.cols|
        invariant 0 <= i <= |data.cols|
        invariant row == EmptyRow(i)
      {
        row := row + [EmptyCell];
        i := i + 1;
      }
      rows := rows + [row];
      data := data.(rows := data.rows + [DefaultRowHeight]);
    }

    /** `insertRow(table, rowIndex, above)`. */
    method InsertRow(rowIndex: int, above: bool) returns (err: Option<TableError>)
      modifies this
      ensures Applied(InsertRowSpec(old(Value()), rowIndex, above), old(Value()), Value(), err)
    {
      var cells := GetTableCells(rows);
      var scan := ScanInsertRow(cells, rows, rowIndex, above, |data.cols|);
      if scan.Err? {
        return Some(scan.error);
      }
      var (work, row) := scan.value;
      var at := if above then rowIndex else rowIndex + 1;
      if !(0 <= at <= |work|) {
        return Some(BadPath);
      }
      rows := work[..at] + [row] + work[at..];
      data := data.(rows := SpliceInsert(data.rows, at, DefaultRowHeight));
      return None;
    }

    /** `appendCol`. */
    method AppendCol() returns (err: Option<TableError>)
      modifies this
      ensures Applied(AppendColSpec(old(Value())), old(Value()), Value(), err)
    {
      var work := rows;
      var i := 0;
      while i < |data.rows|
        invariant 0 <= i <= |data.rows| && i <= |rows| && |work| == |rows|
        invariant forall k :: 0 <= k < |rows| ==> work[k] == if k < i then rows[k] + [EmptyCell] else rows[k]
      {
        if i >= |work| {
          return Some(MissingRow);
        }
        work := work[i := work[i] + [EmptyCell]];
        i := i + 1;
      }
      assert work == AppendColSpec(Value()).value.rows;
      rows := work;
      data := data.(cols := data.cols + [DefaultCellWidth], width := data.width + DefaultCellWidth);
      return None;
    }

    /** The body of `insertCol`'s loop for row `i`. */
    static method InsertColAt(cells: Grid, work: Rows, colIndex: int, left: bool, i: int) returns (r: Result<Rows, TableError>)
      ensures r == InsertColRow(cells, work, colIndex, left, i)
    {
      if (i, colIndex) !in cells {
        return Err(MissingCell);
      }
      var cell := cells[(i, colIndex)];
      var insert := true;
      if left {
        if cell.colIndex != colIndex {
          insert := false;
        }
      } else {
        if cell.colIndex + cell.colSpan > colIndex + 1 {
          insert := false;
        }
      }
      if insert {
        var k := GetCellIndex(cells, i, colIndex);
        if k.None? {
          return Err(MissingCell);
        }
        var at := if left then k.value else k.value + 1;
        if !(0 <= i < |work| && at <= |work[i]|) {
          return Err(BadPath);
        }
        return Ok(work[i := work[i][..at] + [EmptyCell] + work[i][at..]]);
      } else {
        if !ValidCell(work, cell.rowIndex, cell.cellIndex) {
          return Err(BadPath);
        }
        var c := work[cell.rowIndex][cell.cellIndex];
        return Ok(work[cell.rowIndex := work[cell.rowIndex][cell.cellIndex := c.(colSpan := cell.colSpan + 1)]]);
      }
    }

    /** `insertCol(table, colIndex, left)`. */
    method InsertCol(colIndex: int, left: bool) returns (err: Option<TableError>)
      modifies this
      ensures Applied(InsertColSpec(old(Value()), colIndex, left), old(Value()), Value(), err)
    {
      var cells := GetTableCells(rows);
      var work := rows;
      var i := 0;
      while i < |data.rows|
        invariant 0 <= i <= |data.rows|
        invariant Value() == old(Value())
        invariant InsertColScan(cells, rows, colIndex, left, i) == Ok(work)
      {
        var r := InsertColAt(cells, work, colIndex, left, i);
        if r.Err? {
          InsertColScanFails(cells, rows, colIndex, left, i + 1, |data.rows|);
          return Some(r.error);
        }
        work := r.value;
        i := i + 1;
      }
      rows := work;
      data := data.(cols := SpliceInsert(data.cols, colIndex, DefaultCellWidth), width := data.width + DefaultCellWidth);
      return None;
    }

    /** `removeRow(table, rowIndex)`. */
    method RemoveRow(rowIndex: int) returns (err: Option<TableError>)
      modifies this
      ensures Applied(RemoveRowSpec(old(Value()), rowIndex), old(Value()), Value(), err)
    {
      if |data.rows| == 1 {
        return Some(LastRow);
      }
      var cells := GetTableCells(rows);
      var i := 0;
      while i < |data.cols|
        invariant 0 <= i <= |data.cols|
        invariant RemoveRowCheck(cells, rowIndex, i) == None
      {
        if (rowIndex, i) !in cells {
          RemoveRowCheckFails(cells, rowIndex, i + 1, |data.cols|);
          return Some(MissingCell);
        }
        if cells[(rowIndex, i)].rowSpan > 1 {
          RemoveRowCheckFails(cells, rowIndex, i + 1, |data.cols|);
          return Some(SplitBeforeRemoveRow);
        }
        i := i + 1;
      }
      if !(0 <= rowIndex < |rows|) {
        return Some(BadPath);
      }
      rows := rows[..rowIndex] + rows[rowIndex + 1..];
      data := data.(rows := SpliceRemove(data.rows, rowIndex));
      return None;
    }

    /** `removeCol(table, colIndex)` as written: row `i` loses its child `cells[i,colIndex].cellIndex`. */
    method RemoveCol(colIndex: int) returns (err: Option<TableError>)
      modifies this
      ensures Applied(RemoveColSpecAsWritten(old(Value()), colIndex), old(Value()), Value(), err)
    {
      var cells := GetTableCells(rows);
      if |data.cols| == 1 {
        return Some(LastCol);
      }
      var i := 0;
      while i < |data.rows|
        invariant 0 <= i <= |data.rows|
        invariant RemoveColCheck(cells, colIndex, i) == None
      {
        if (i, colIndex) !in cells {
          RemoveColCheckFails(cells, colIndex, i + 1, |data.rows|);
          return Some(MissingCell);
        }
        if cells[(i, colIndex)].colSpan > 1 {
          RemoveColCheckFails(cells, colIndex, i + 1, |data.rows|);
          return Some(SplitBeforeRemoveCol);
        }
        i := i + 1;
      }
      var work := rows;
      i := 0;
      while i < |data.rows|
        invariant 0 <= i <= |data.rows|
        invariant RemoveColCellsAsWritten(cells, rows, colIndex, i) == Ok(work)
      {
        if (i, colIndex) !in cells {
          RemoveColCellsAsWrittenFails(cells, rows, colIndex, i + 1, |data.rows|);
          return Some(MissingCell);
        }
        var cell := cells[(i, colIndex)];
        if !ValidCell(work, i, cell.cellIndex) {
          RemoveColCellsAsWrittenFails(cells, rows, colIndex, i + 1, |data.rows|);
          return Some(BadPath);
        }
        work := work[i := work[i][..cell.cellIndex] + work[i][cell.cellIndex + 1..]];
        i := i + 1;
      }
      var cols := SpliceRemove(data.cols, colIndex);
      var width := 0;
      var k := 0;
      while k < |cols|
        invariant 0 <= k <= |cols|
        invariant width == Sum(cols[..k])
      {
        assert cols[..k + 1][..k] == cols[..k];
        width := width + cols[k];
        k := k + 1;
      }
      assert cols[..k] == cols;
      rows := work;
      data := data.(cols := cols, width := width);
      return None;
    }

    /** `mergeCells(table, selectedCells)`. */
    method MergeCells(sel: SelectedCells) returns (err: Option<TableError>)
      modifies this
      ensures Applied(MergeSpec(old(Value()), sel), old(Value()), Value(), err)
    {
      if sel.row1 == sel.row2 && sel.col1 == sel.col2 {
        return None;
      }
      var cells := GetTableCells(rows);
      if (sel.row1, sel.col1) !in cells || (sel.row2, sel.col2) !in cells {
        return None;
      }
      var lt := cells[(sel.row1, sel.col1)];
      var rb := cells[(sel.row2, sel.col2)];
      var scan := ScanMerge(cells, sel, lt);
      if scan.Err? {
        return Some(scan.error);
      }
      var applied := ApplyMerge(rows, lt, rb, scan.value);
      if applied.Err? {
        return Some(applied.error);
      }
      rows := applied.value;
      return None;
    }

    /** `splitCell(table, rowIndex, colIndex)`. */
    method SplitCell(rowIndex: int, colIndex: int) returns (err: Option<TableError>)
      modifies this
      ensures Applied(SplitSpec(old(Value()), rowIndex, colIndex), old(Value()), Value(), err)
    {
      var cells := GetTableCells(rows);
      if (rowIndex, colIndex) !in cells {
        return Some(MissingCell);
      }
      var cell := cells[(rowIndex, colIndex)];
      var inserted := SplitInserts(cells, cell, rows);
      if inserted.Err? {
        return Some(inserted.error);
      }
      var work := inserted.value;
      if !ValidCell(work, cell.rowIndex, cell.cellIndex) {
        return Some(BadPath);
      }
      var c := work[cell.rowIndex][cell.cellIndex];
      rows := work[cell.rowIndex := work[cell.rowIndex][cell.cellIndex := c.(rowSpan := 1, colSpan := 1)]];
      return None;
    }
  }
}
