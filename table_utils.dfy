/**
 * The read-only twin of the table grid over the rendered HTML table
 * (src/lib/editor/helpers/table-utils.ts): the same span scan over the
 * `td` elements, the column under a horizontal position, and the pixel
 * rectangle of a selection.
 *
 * The DOM is an input: each `td` comes with the spans the browser reports
 * and its offset box.
 */
module TableUtils {
  import opened Wrappers
  import opened TableGrid
  import opened TableEditor

  /** `offsetLeft`, `offsetTop`, `offsetWidth`, `offsetHeight` of an element. */
  datatype Box = Box(left: int, top: int, width: int, height: int)

  /** A rendered `td`: `td.rowSpan`, `td.colSpan` and its box. */
  datatype Td = Td(rowSpan: int, colSpan: int, box: Box)

  /** `table.rows`, each with its `cells`. */
  type DomTable = seq<seq<Td>>

  /** The browser reports every span as at least 1. */
  predicate DomSpans(t: DomTable)
  {
    forall i, k :: 0 <= i < |t| && 0 <= k < |t[i]| ==> t[i][k].rowSpan >= 1 && t[i][k].colSpan >= 1
  }

  /** A row of `td`s with only the spans kept, as the grid scan sees it. */
  function AsCells(tds: seq<Td>): (cells: seq<Cell>)
    ensures |cells| == |tds|
    ensures forall k :: 0 <= k < |tds| ==> cells[k] == Cell(tds[k].rowSpan, tds[k].colSpan, [])
  {
    seq(|tds|, k requires 0 <= k < |tds| => Cell(tds[k].rowSpan, tds[k].colSpan, []))
  }

  function AsRows(t: DomTable): (rows: Rows)
    ensures |rows| == |t|
    ensures forall i :: 0 <= i < |t| ==> rows[i] == AsCells(t[i])
  {
    seq(|t|, i requires 0 <= i < |t| => AsCells(t[i]))
  }

  /** The `while` loop of `getTableDesc`: moves the cursor past claimed columns. */
  method SkipClaimed(cells: Grid, i: int, start: int) returns (tdIndex: int)
    requires PositiveSpans(cells)
    ensures tdIndex == Skip(cells, i, start)
  {
    tdIndex := start;
    while (i, tdIndex) in cells
      invariant Skip(cells, i, tdIndex) == Skip(cells, i, start)
      decreases RowKeysFrom(cells, i, tdIndex)
    {
      assert (i, tdIndex) in RowKeysFrom(cells, i, tdIndex) - RowKeysFrom(cells, i, tdIndex + cells[(i, tdIndex)].colSpan);
      tdIndex := tdIndex + cells[(i, tdIndex)].colSpan;
    }
  }

  /** The loop over the `td`s of row `i`. */
  method ScanDomRow(before: Grid, i: int, tds: seq<Td>) returns (cells: Grid)
    requires PositiveSpans(before)
    requires forall k :: 0 <= k < |tds| ==> tds[k].rowSpan >= 1 && tds[k].colSpan >= 1
    ensures cells == ScanRow(before, i, AsCells(tds), |tds|).grid
  {
    ghost var row := AsCells(tds);
    cells := before;
    var tdIndex := 0;
    var j := 0;
    while j < |tds|
      invariant 0 <= j <= |tds|
      invariant Cursor(cells, tdIndex) == ScanRow(before, i, row, j)
    {
      var td := tds[j];
      ghost var start := tdIndex;
      tdIndex := SkipClaimed(cells, i, tdIndex);
      var cell := Desc(i, tdIndex, j, td.rowSpan, td.colSpan);
      assert cell == Placed(Cursor(cells, start), i, j, row[j]);
      cells := FillCells(cells, cell);
      tdIndex := tdIndex + td.colSpan;
      j := j + 1;
    }
  }

  /**
   * `getTableDesc(table).cells`.  A descriptor holds the position of its `td`
   * in the row (`cellIndex`) where the source holds the element itself.
   */
  method GetTableDesc(t: DomTable) returns (cells: Grid)
    requires DomSpans(t)
    ensures cells == CellMap(AsRows(t))
  {
    ghost var rows := AsRows(t);
    cells := map[];
    var i := 0;
    while i < |t|
      invariant 0 <= i <= |t|
      invariant cells == ScanRows(rows, i)
    {
      cells := ScanDomRow(cells, i, t[i]);
      i := i + 1;
    }
  }

  /**
   * Every key of the DOM grid lies in the footprint of its descriptor, and
   * the descriptor names an existing `td` whose reported spans it carries.
   */
  lemma TableDescFacts(t: DomTable)
    requires DomSpans(t)
    ensures forall key :: key in CellMap(AsRows(t)) ==>
              var d := CellMap(AsRows(t))[key];
              && InFootprint(d, key)
              && 0 <= d.rowIndex < |t| && 0 <= d.cellIndex < |t[d.rowIndex]|
              && d.rowSpan == t[d.rowIndex][d.cellIndex].rowSpan
              && d.colSpan == t[d.rowIndex][d.cellIndex].colSpan
  {
    CellMapFacts(AsRows(t));
  }

  // ---------------------------------------------------------------------
  // getColIndex (table-utils.ts:76-98)
  // ---------------------------------------------------------------------

  /** The right edge of column `j`: `w0 + … + wj`. */
  function ColumnEnd(widths: seq<int>, j: int): int
    requires 0 <= j < |widths|
  {
    Sum(widths[..j + 1])
  }

  /**
   * `getColIndex`: the first column whose right edge lies beyond `pos`, or
   * -1.  `pos` is the cell's centre, taken as an integer.
   */
  method GetColIndex(widths: seq<int>, pos: int) returns (index: int)
    ensures -1 <= index < |widths|
    ensures 0 <= index ==> pos < ColumnEnd(widths, index)
    ensures forall j :: 0 <= j < |widths| && (index == -1 || j < index) ==> ColumnEnd(widths, j) <= pos
  {
    var curpos := 0;
    var i := 0;
    while i < |widths|
      invariant 0 <= i <= |widths|
      invariant curpos == Sum(widths[..i])
      invariant forall j :: 0 <= j < i ==> ColumnEnd(widths, j) <= pos
    {
      assert widths[..i + 1][..i] == widths[..i];
      curpos := curpos + widths[i];
      if pos < curpos {
        return i;
      }
      i := i + 1;
    }
    return -1;
  }

  lemma {:induction false} PrefixGrows(widths: seq<int>, a: nat, b: nat)
    requires a <= b <= |widths|
    requires forall j :: 0 <= j < |widths| ==> widths[j] >= 0
    ensures Sum(widths[..a]) <= Sum(widths[..b])
    decreases b
  {
    if a < b {
      PrefixGrows(widths, a, b - 1);
      assert widths[..b][..b - 1] == widths[..b - 1];
    }
  }

  /**
   * With non-negative widths no column is found exactly when there is no
   * column or `pos` is at or beyond the table's total width.
   */
  lemma NoColumnBeyondWidth(widths: seq<int>, pos: int)
    requires forall j :: 0 <= j < |widths| ==> widths[j] >= 0
    ensures (forall j :: 0 <= j < |widths| ==> ColumnEnd(widths, j) <= pos) <==> (|widths| == 0 || Sum(widths) <= pos)
  {
    assert widths[..|widths|] == widths;
    if |widths| > 0 {
      assert ColumnEnd(widths, |widths| - 1) == Sum(widths);
    }
    if |widths| > 0 && Sum(widths) <= pos {
      forall j | 0 <= j < |widths| ensures ColumnEnd(widths, j) <= pos {
        PrefixGrows(widths, j + 1, |widths|);
      }
    }
  }

  /** With non-negative widths the column found is the one whose span contains `pos`. */
  lemma FoundColumnContains(widths: seq<int>, pos: int, index: int)
    requires forall j :: 0 <= j < |widths| ==> widths[j] >= 0
    requires 0 <= index < |widths| && pos < ColumnEnd(widths, index)
    requires forall j :: 0 <= j < index ==> ColumnEnd(widths, j) <= pos
    requires 0 <= pos
    ensures Sum(widths[..index]) <= pos < Sum(widths[..index]) + widths[index]
  {
    assert widths[..index + 1][..index] == widths[..index];
    if index > 0 {
      assert ColumnEnd(widths, index - 1) <= pos;
    }
  }

  // ---------------------------------------------------------------------
  // getSelectedArea (table-utils.ts:107-153)
  // ---------------------------------------------------------------------

  datatype Area = Area(left: int, top: int, right: int, bottom: int)

  const NoArea := Area(0, 0, 0, 0)

  /** From the top-left corner of `lt` to the bottom-right corner of `rb`. */
  function Spanning(lt: Box, rb: Box): Area
  {
    Area(lt.left, lt.top, rb.left + rb.width, rb.top + rb.height)
  }

  function Min(a: int, b: int): int { if a <= b then a else b }

  function Max(a: int, b: int): int { if a <= b then b else a }

  /** The box of the `td` a grid descriptor names. */
  function BoxAt(t: DomTable, d: Desc): Box
    requires 0 <= d.rowIndex < |t| && 0 <= d.cellIndex < |t[d.rowIndex]|
  {
    t[d.rowIndex][d.cellIndex].box
  }

  /**
   * `getSelectedArea(table, selectedCells)`.  None is the TypeError the
   * source raises when a normalised corner has no cell.
   */
  function SelectedArea(t: DomTable, sel: SelectedCells): Option<Area>
  {
    if sel.col1 < 0 || sel.row1 < 0 then Some(NoArea)
    else
      var g := CellMap(AsRows(t));
      CellMapFacts(AsRows(t));
      if (sel.row1, sel.col1) !in g then Some(NoArea)
      else if sel.row2 < 0 || sel.col2 < 0 then
        var box := BoxAt(t, g[(sel.row1, sel.col1)]);
        Some(Spanning(box, box))
      else
        var lt := (Min(sel.row1, sel.row2), Min(sel.col1, sel.col2));
        var rb := (Max(sel.row1, sel.row2), Max(sel.col1, sel.col2));
        if lt !in g || rb !in g then None
        else Some(Spanning(BoxAt(t, g[lt]), BoxAt(t, g[rb])))
  }

  /** No area without a first corner, or when the first corner has no cell. */
  lemma NoAreaWithoutFirstCorner(t: DomTable, sel: SelectedCells)
    requires sel.col1 < 0 || sel.row1 < 0 || (sel.row1, sel.col1) !in CellMap(AsRows(t))
    ensures SelectedArea(t, sel) == Some(NoArea)
  {
  }

  /** Swapping the two corners selects the same area. */
  lemma SwapCornersSameArea(t: DomTable, r1: int, c1: int, r2: int, c2: int)
    requires 0 <= r1 && 0 <= c1 && 0 <= r2 && 0 <= c2
    requires (r1, c1) in CellMap(AsRows(t)) && (r2, c2) in CellMap(AsRows(t))
    ensures SelectedArea(t, SelectedCells(r1, c1, r2, c2)) == SelectedArea(t, SelectedCells(r2, c2, r1, c1))
  {
  }

  /** Naming one cell as both corners selects that cell's own box, as naming it alone does. */
  lemma OneCellArea(t: DomTable, r: int, c: int)
    requires 0 <= r && 0 <= c && (r, c) in CellMap(AsRows(t))
    ensures SelectedArea(t, SelectedCells(r, c, r, c)) == SelectedArea(t, SelectedCells(r, c, -1, -1))
    ensures SelectedArea(t, SelectedCells(r, c, -1, -1)).Some?
  {
  }
}
