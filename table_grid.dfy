/**
 * The logical grid of a table (`getTableCells` and `getCellIndex` in
 * src/lib/editor/helpers/table-editor.ts).
 *
 * A table is stored as rows of cells; a cell may carry `rowSpan`/`colSpan`.
 * One scan over the rows maps every logical position (row, column) to the
 * descriptor of the cell covering it.  Within a row a column cursor skips
 * positions already claimed by cells of earlier rows.
 */
module TableGrid {
  import opened Wrappers
  import opened Document

  /** A `td` node: its spans (0 stands for an absent, falsy attribute) and its children. */
  datatype Cell = Cell(rowSpan: int, colSpan: int, content: seq<Node>)

  /** The children of a `table` node: rows, each a sequence of cells. */
  type Rows = seq<seq<Cell>>

  /** `TableCellDesc`: grid origin, index of the cell in its row, and spans. */
  datatype Desc = Desc(rowIndex: int, colIndex: int, cellIndex: int, rowSpan: int, colSpan: int)

  /** `TableCells`: the key `"i,j"` is the pair (i, j). */
  type Grid = map<(int, int), Desc>

  /** `cell.rowSpan ? cell.rowSpan : 1`: only an absent or zero span defaults. */
  function EffSpan(s: int): int
  {
    if s == 0 then 1 else s
  }

  /** The rectangle [rowIndex, rowIndex+rowSpan) x [colIndex, colIndex+colSpan). */
  predicate InFootprint(d: Desc, k: (int, int))
  {
    d.rowIndex <= k.0 < d.rowIndex + d.rowSpan && d.colIndex <= k.1 < d.colIndex + d.colSpan
  }

  /** The number of iterations of `for (i = 0; i < span; i++)`. */
  function Count(span: int): nat
  {
    if span < 0 then 0 else span
  }

  /** The inner `for` loop: writes `d` at columns colIndex .. colIndex+n-1 of row `i`. */
  function FillRow(m: Grid, d: Desc, i: int, n: nat): Grid
  {
    if n == 0 then m else FillRow(m, d, i, n - 1)[(i, d.colIndex + n - 1) := d]
  }

  /** The outer `for` loop: the first `n` rows of the footprint. */
  function FillRows(m: Grid, d: Desc, n: nat): Grid
  {
    if n == 0 then m else FillRow(FillRows(m, d, n - 1), d, d.rowIndex + n - 1, Count(d.colSpan))
  }

  /** The two nested `for` loops that write `d` at every position it covers. */
  function Fill(m: Grid, d: Desc): Grid
  {
    FillRows(m, d, Count(d.rowSpan))
  }

  lemma {:induction false} FillRowFacts(m: Grid, d: Desc, i: int, n: nat)
    ensures forall k :: k in FillRow(m, d, i, n) <==> k in m || (k.0 == i && d.colIndex <= k.1 < d.colIndex + n)
    ensures forall k :: k in FillRow(m, d, i, n) ==>
              FillRow(m, d, i, n)[k] == if k.0 == i && d.colIndex <= k.1 < d.colIndex + n then d else m[k]
  {
    if n > 0 {
      FillRowFacts(m, d, i, n - 1);
    }
  }

  lemma {:induction false} FillRowsFacts(m: Grid, d: Desc, n: nat)
    ensures forall k :: k in FillRows(m, d, n) <==> k in m || (d.rowIndex <= k.0 < d.rowIndex + n && d.colIndex <= k.1 < d.colIndex + d.colSpan)
    ensures forall k :: k in FillRows(m, d, n) ==>
              FillRows(m, d, n)[k] == if d.rowIndex <= k.0 < d.rowIndex + n && d.colIndex <= k.1 < d.colIndex + d.colSpan then d else m[k]
  {
    if n > 0 {
      FillRowsFacts(m, d, n - 1);
      FillRowFacts(FillRows(m, d, n - 1), d, d.rowIndex + n - 1, Count(d.colSpan));
    }
  }

  /** `Fill` adds exactly the footprint of `d` and maps it to `d`; nothing else changes. */
  lemma FillFacts(m: Grid, d: Desc)
    ensures forall k :: k in Fill(m, d) <==> k in m || InFootprint(d, k)
    ensures forall k :: k in Fill(m, d) ==> Fill(m, d)[k] == if InFootprint(d, k) then d else m[k]
  {
    FillRowsFacts(m, d, Count(d.rowSpan));
  }

  /** Every descriptor in the map spans at least one row and one column. */
  predicate PositiveSpans(m: Grid)
  {
    forall k :: k in m ==> m[k].rowSpan >= 1 && m[k].colSpan >= 1
  }

  lemma FillPositive(m: Grid, d: Desc)
    requires PositiveSpans(m)
    ensures PositiveSpans(Fill(m, d))
  {
    FillFacts(m, d);
  }

  function RowKeysFrom(m: Grid, r: int, c: int): set<(int, int)>
  {
    set k | k in m.Keys && k.0 == r && k.1 >= c
  }

  /** The `while` loop that moves the cursor past claimed positions. */
  function Skip(m: Grid, r: int, c: int): (c': int)
    requires PositiveSpans(m)
    ensures c <= c' && (r, c') !in m
    decreases RowKeysFrom(m, r, c)
  {
    if (r, c) in m then
      assert (r, c) in RowKeysFrom(m, r, c) - RowKeysFrom(m, r, c + m[(r, c)].colSpan);
      Skip(m, r, c + m[(r, c)].colSpan)
    else
      c
  }

  /** The scan state inside one row: the map so far and the column cursor. */
  datatype Cursor = Cursor(grid: Grid, col: int)

  /** The descriptor given to cell number `k` of row `r`; its origin is unclaimed. */
  function Placed(s: Cursor, r: int, k: int, cell: Cell): (d: Desc)
    requires PositiveSpans(s.grid)
    ensures d.rowIndex == r && d.cellIndex == k && d.colIndex >= s.col
    ensures (r, d.colIndex) !in s.grid
    ensures d.rowSpan == EffSpan(cell.rowSpan) && d.colSpan == EffSpan(cell.colSpan)
  {
    Desc(r, Skip(s.grid, r, s.col), k, EffSpan(cell.rowSpan), EffSpan(cell.colSpan))
  }

  function Place(s: Cursor, r: int, k: int, cell: Cell): (s': Cursor)
    requires PositiveSpans(s.grid)
    ensures PositiveSpans(s'.grid)
  {
    var d := Placed(s, r, k, cell);
    FillPositive(s.grid, d);
    Cursor(Fill(s.grid, d), d.colIndex + d.colSpan)
  }

  /** The state after the first `n` cells of row `r`. */
  function ScanRow(g: Grid, r: int, cells: seq<Cell>, n: nat): (s: Cursor)
    requires n <= |cells| && PositiveSpans(g)
    ensures PositiveSpans(s.grid)
  {
    if n == 0 then Cursor(g, 0) else Place(ScanRow(g, r, cells, n - 1), r, n - 1, cells[n - 1])
  }

  /** The map after the first `n` rows. */
  function ScanRows(rows: Rows, n: nat): (g: Grid)
    requires n <= |rows|
    ensures PositiveSpans(g)
  {
    if n == 0 then map[] else ScanRow(ScanRows(rows, n - 1), n - 1, rows[n - 1], |rows[n - 1]|).grid
  }

  /** The map `getTableCells` returns. */
  function CellMap(rows: Rows): Grid
  {
    ScanRows(rows, |rows|)
  }

  /** The column the scan assigns to cell `n` of the row. */
  function ColumnOf(g: Grid, r: int, cells: seq<Cell>, n: nat): int
    requires n < |cells| && PositiveSpans(g)
  {
    Placed(ScanRow(g, r, cells, n), r, n, cells[n]).colIndex
  }

  /** The two nested `for` loops of `getTableCells` that write one descriptor. */
  method FillCells(before: Grid, data: Desc) returns (tableCells: Grid)
    ensures tableCells == Fill(before, data)
  {
    tableCells := before;
    var i := data.rowIndex;
    while i < data.rowIndex + data.rowSpan
      invariant data.rowIndex <= i && (data.rowSpan >= 0 ==> i <= data.rowIndex + data.rowSpan)
      invariant data.rowSpan < 0 ==> i == data.rowIndex
      invariant tableCells == FillRows(before, data, i - data.rowIndex)
    {
      var j := data.colIndex;
      while j < data.colIndex + data.colSpan
        invariant data.colIndex <= j && (data.colSpan >= 0 ==> j <= data.colIndex + data.colSpan)
        invariant data.colSpan < 0 ==> j == data.colIndex
        invariant tableCells == FillRow(FillRows(before, data, i - data.rowIndex), data, i, j - data.colIndex)
      {
        tableCells := tableCells[(i, j) := data];
        j := j + 1;
      }
      i := i + 1;
    }
  }

  /** `getTableCells`: the scan as the source writes it. */
  method GetTableCells(rows: Rows) returns (tableCells: Grid)
    ensures tableCells == CellMap(rows)
  {
    tableCells := map[];
    var rowIndex := 0;
    while rowIndex < |rows|
      invariant 0 <= rowIndex <= |rows|
      invariant tableCells == ScanRows(rows, rowIndex)
    {
      var cells := rows[rowIndex];
      var colIndex := 0;
      var cellIndex := 0;
      while cellIndex < |cells|
        invariant 0 <= cellIndex <= |cells|
        invariant Cursor(tableCells, colIndex) == ScanRow(ScanRows(rows, rowIndex), rowIndex, cells, cellIndex)
      {
        var cell := cells[cellIndex];
        var rowSpan := if cell.rowSpan != 0 then cell.rowSpan else 1;
        var colSpan := if cell.colSpan != 0 then cell.colSpan else 1;
        ghost var start := colIndex;
        while (rowIndex, colIndex) in tableCells
          invariant PositiveSpans(tableCells)
          invariant Skip(tableCells, rowIndex, colIndex) == Skip(tableCells, rowIndex, start)
          decreases RowKeysFrom(tableCells, rowIndex, colIndex)
        {
          assert (rowIndex, colIndex) in RowKeysFrom(tableCells, rowIndex, colIndex)
            - RowKeysFrom(tableCells, rowIndex, colIndex + tableCells[(rowIndex, colIndex)].colSpan);
          colIndex := colIndex + tableCells[(rowIndex, colIndex)].colSpan;
        }
        var data := Desc(rowIndex, colIndex, cellIndex, rowSpan, colSpan);
        assert data == Placed(Cursor(tableCells, start), rowIndex, cellIndex, cell);
        tableCells := FillCells(tableCells, data);
        colIndex := colIndex + colSpan;
        cellIndex := cellIndex + 1;
      }
      rowIndex := rowIndex + 1;
    }
  }

  // ---------------------------------------------------------------------
  // What the scan guarantees
  // ---------------------------------------------------------------------

  /** `d` is the descriptor the scan builds for cell `rows[d.rowIndex][d.cellIndex]`. */
  predicate DescOf(rows: Rows, d: Desc)
  {
    && 0 <= d.rowIndex < |rows|
    && 0 <= d.cellIndex < |rows[d.rowIndex]|
    && d.rowSpan == EffSpan(rows[d.rowIndex][d.cellIndex].rowSpan)
    && d.colSpan == EffSpan(rows[d.rowIndex][d.cellIndex].colSpan)
    && d.rowSpan >= 1 && d.colSpan >= 1
  }

  /** Descriptors are identified by the cell they describe. */
  predicate Unique(g: Grid)
  {
    forall k1, k2 :: k1 in g && k2 in g && g[k1].rowIndex == g[k2].rowIndex && g[k1].cellIndex == g[k2].cellIndex
      ==> g[k1] == g[k2]
  }

  predicate Before(d: Desc, r: int, k: int)
  {
    d.rowIndex < r || (d.rowIndex == r && d.cellIndex < k)
  }

  /** What holds of the map once the scan has reached cell `k` of row `r`. */
  predicate ScanInv(rows: Rows, g: Grid, r: int, k: int)
  {
    && (forall key :: key in g ==> InFootprint(g[key], key) && DescOf(rows, g[key]) && Before(g[key], r, k))
    && Unique(g)
  }

  lemma PlaceKeepsInv(rows: Rows, s: Cursor, r: int, k: int)
    requires 0 <= r < |rows| && 0 <= k < |rows[r]|
    requires PositiveSpans(s.grid) && ScanInv(rows, s.grid, r, k)
    ensures ScanInv(rows, Place(s, r, k, rows[r][k]).grid, r, k + 1)
  {
    FillFacts(s.grid, Placed(s, r, k, rows[r][k]));
  }

  lemma {:induction false} ScanRowKeepsInv(rows: Rows, g: Grid, r: int, n: nat)
    requires 0 <= r < |rows| && n <= |rows[r]|
    requires PositiveSpans(g) && ScanInv(rows, g, r, 0)
    ensures ScanInv(rows, ScanRow(g, r, rows[r], n).grid, r, n)
  {
    if n > 0 {
      ScanRowKeepsInv(rows, g, r, n - 1);
      PlaceKeepsInv(rows, ScanRow(g, r, rows[r], n - 1), r, n - 1);
    }
  }

  lemma {:induction false} ScanRowsKeepsInv(rows: Rows, n: nat)
    requires n <= |rows|
    ensures ScanInv(rows, ScanRows(rows, n), n, 0)
  {
    if n > 0 {
      var g := ScanRows(rows, n - 1);
      ScanRowsKeepsInv(rows, n - 1);
      ScanRowKeepsInv(rows, g, n - 1, |rows[n - 1]|);
    }
  }

  /**
   * Every filled key lies inside the footprint of its descriptor, every
   * descriptor names an existing cell with that cell's (defaulted) spans, and
   * one cell has one descriptor.
   */
  lemma CellMapFacts(rows: Rows)
    ensures forall key :: key in CellMap(rows) ==> InFootprint(CellMap(rows)[key], key) && DescOf(rows, CellMap(rows)[key])
    ensures Unique(CellMap(rows))
  {
    ScanRowsKeepsInv(rows, |rows|);
  }

  /** The cell a slot names covers that slot. */
  lemma FootprintAt(rows: Rows, key: (int, int))
    requires key in CellMap(rows)
    ensures InFootprint(CellMap(rows)[key], key)
  {
    CellMapFacts(rows);
  }

  /** No cell carries a negative span (an absent or zero span defaults to 1). */
  predicate NoNegativeSpans(rows: Rows)
  {
    forall i, k :: 0 <= i < |rows| && 0 <= k < |rows[i]| ==> rows[i][k].rowSpan >= 0 && rows[i][k].colSpan >= 0
  }

  /** The descriptor of a position also covers that column in its own first row. */
  predicate OriginRows(g: Grid)
  {
    forall key :: key in g ==> (g[key].rowIndex, key.1) in g && g[(g[key].rowIndex, key.1)] == g[key]
  }

  /** Inside row `r`: the cells placed in it so far all lie left of the cursor. */
  predicate LeftOfCursor(g: Grid, r: int, col: int)
  {
    forall key :: key in g && g[key].rowIndex == r ==> key.1 < col
  }

  /**
   * Placing a cell writes its first row right of the cursor, where no cell of
   * the row lies yet, so no first-row position of an earlier cell is
   * overwritten.
   */
  lemma PlaceKeepsOrigins(rows: Rows, s: Cursor, r: int, k: int)
    requires 0 <= r < |rows| && 0 <= k < |rows[r]| && NoNegativeSpans(rows)
    requires PositiveSpans(s.grid) && ScanInv(rows, s.grid, r, k)
    requires OriginRows(s.grid) && LeftOfCursor(s.grid, r, s.col)
    ensures var s' := Place(s, r, k, rows[r][k]);
            OriginRows(s'.grid) && LeftOfCursor(s'.grid, r, s'.col)
  {
    var d := Placed(s, r, k, rows[r][k]);
    var g, g' := s.grid, Place(s, r, k, rows[r][k]).grid;
    FillFacts(g, d);
    assert d.colSpan >= 1;
    forall key | key in g'
      ensures (g'[key].rowIndex, key.1) in g' && g'[(g'[key].rowIndex, key.1)] == g'[key]
    {
      if !InFootprint(d, key) {
        var e := g[key];
        assert InFootprint(e, key) && Before(e, r, k);
        var o := (e.rowIndex, key.1);
        assert o in g && g[o] == e;
      }
    }
  }

  lemma {:induction false} ScanRowKeepsOrigins(rows: Rows, g: Grid, r: int, n: nat)
    requires 0 <= r < |rows| && n <= |rows[r]| && NoNegativeSpans(rows)
    requires PositiveSpans(g) && ScanInv(rows, g, r, 0) && OriginRows(g)
    ensures var s := ScanRow(g, r, rows[r], n);
            OriginRows(s.grid) && LeftOfCursor(s.grid, r, s.col)
  {
    if n > 0 {
      ScanRowKeepsOrigins(rows, g, r, n - 1);
      ScanRowKeepsInv(rows, g, r, n - 1);
      PlaceKeepsOrigins(rows, ScanRow(g, r, rows[r], n - 1), r, n - 1);
    } else {
      forall key | key in g ensures g[key].rowIndex != r {
        assert Before(g[key], r, 0);
      }
    }
  }

  lemma {:induction false} ScanRowsKeepsOrigins(rows: Rows, n: nat)
    requires n <= |rows| && NoNegativeSpans(rows)
    ensures OriginRows(ScanRows(rows, n))
  {
    if n > 0 {
      ScanRowsKeepsOrigins(rows, n - 1);
      ScanRowsKeepsInv(rows, n - 1);
      ScanRowKeepsOrigins(rows, ScanRows(rows, n - 1), n - 1, |rows[n - 1]|);
    }
  }

  /**
   * With no negative span, the cell covering a position covers the same
   * column in the row where it starts (a negative span moves the cursor
   * back, and a later cell of that row may then overwrite the first row).
   */
  lemma CellMapOrigins(rows: Rows)
    requires NoNegativeSpans(rows)
    ensures OriginRows(CellMap(rows))
  {
    ScanRowsKeepsOrigins(rows, |rows|);
  }

  /** Within a row, a cell with a smaller index starts in a column further left. */
  predicate RowOrder(g: Grid)
  {
    forall k1, k2 :: k1 in g && k2 in g && g[k1].rowIndex == g[k2].rowIndex && g[k1].cellIndex < g[k2].cellIndex
      ==> g[k1].colIndex < g[k2].colIndex
  }

  /** The placed cell starts right of the cursor, so right of every earlier cell of its row. */
  lemma PlaceKeepsOrder(rows: Rows, s: Cursor, r: int, k: int)
    requires 0 <= r < |rows| && 0 <= k < |rows[r]|
    requires PositiveSpans(s.grid) && ScanInv(rows, s.grid, r, k)
    requires LeftOfCursor(s.grid, r, s.col) && RowOrder(s.grid)
    ensures RowOrder(Place(s, r, k, rows[r][k]).grid)
  {
    var d := Placed(s, r, k, rows[r][k]);
    var g, g' := s.grid, Place(s, r, k, rows[r][k]).grid;
    FillFacts(g, d);
    forall k1, k2 | k1 in g' && k2 in g' && g'[k1].rowIndex == g'[k2].rowIndex && g'[k1].cellIndex < g'[k2].cellIndex
      ensures g'[k1].colIndex < g'[k2].colIndex
    {
      if !InFootprint(d, k1) && InFootprint(d, k2) {
        assert InFootprint(g[k1], k1) && g[k1].rowIndex == r;
      }
    }
  }

  lemma {:induction false} ScanRowKeepsOrder(rows: Rows, g: Grid, r: int, n: nat)
    requires 0 <= r < |rows| && n <= |rows[r]| && NoNegativeSpans(rows)
    requires PositiveSpans(g) && ScanInv(rows, g, r, 0) && OriginRows(g) && RowOrder(g)
    ensures RowOrder(ScanRow(g, r, rows[r], n).grid)
  {
    if n > 0 {
      ScanRowKeepsOrder(rows, g, r, n - 1);
      ScanRowKeepsInv(rows, g, r, n - 1);
      ScanRowKeepsOrigins(rows, g, r, n - 1);
      PlaceKeepsOrder(rows, ScanRow(g, r, rows[r], n - 1), r, n - 1);
    }
  }

  lemma {:induction false} ScanRowsKeepsOrder(rows: Rows, n: nat)
    requires n <= |rows| && NoNegativeSpans(rows)
    ensures RowOrder(ScanRows(rows, n))
  {
    if n > 0 {
      ScanRowsKeepsOrder(rows, n - 1);
      ScanRowsKeepsInv(rows, n - 1);
      ScanRowsKeepsOrigins(rows, n - 1);
      ScanRowKeepsOrder(rows, ScanRows(rows, n - 1), n - 1, |rows[n - 1]|);
    }
  }

  /**
   * With no negative span, the cells of a row start in increasing columns
   * in the order they appear in the row.
   */
  lemma CellMapOrder(rows: Rows)
    requires NoNegativeSpans(rows)
    ensures RowOrder(CellMap(rows))
  {
    ScanRowsKeepsOrder(rows, |rows|);
  }

  /** The descriptor at a slot names a cell of the table with that cell's spans. */
  lemma DescAt(rows: Rows, key: (int, int))
    requires key in CellMap(rows)
    ensures DescOf(rows, CellMap(rows)[key])
  {
    CellMapFacts(rows);
  }

  /** Tables that agree on shape and on defaulted spans have the same grid. */
  predicate SameSpans(rows1: Rows, rows2: Rows)
  {
    && |rows1| == |rows2|
    && (forall i :: 0 <= i < |rows1| ==> |rows1[i]| == |rows2[i]|)
    && (forall i, k :: 0 <= i < |rows1| && 0 <= k < |rows1[i]| ==>
          EffSpan(rows1[i][k].rowSpan) == EffSpan(rows2[i][k].rowSpan)
          && EffSpan(rows1[i][k].colSpan) == EffSpan(rows2[i][k].colSpan))
  }

  lemma PlaceSameSpans(s: Cursor, r: int, k: int, c1: Cell, c2: Cell)
    requires PositiveSpans(s.grid)
    requires EffSpan(c1.rowSpan) == EffSpan(c2.rowSpan) && EffSpan(c1.colSpan) == EffSpan(c2.colSpan)
    ensures Place(s, r, k, c1) == Place(s, r, k, c2)
  {
    var d := Placed(s, r, k, c1);
    assert d == Placed(s, r, k, c2);
  }

  lemma {:induction false} SameSpansSameRow(g: Grid, r: int, c1: seq<Cell>, c2: seq<Cell>, n: nat)
    requires PositiveSpans(g) && n <= |c1| == |c2|
    requires forall k :: 0 <= k < |c1| ==> EffSpan(c1[k].rowSpan) == EffSpan(c2[k].rowSpan) && EffSpan(c1[k].colSpan) == EffSpan(c2[k].colSpan)
    ensures ScanRow(g, r, c1, n) == ScanRow(g, r, c2, n)
  {
    if n > 0 {
      SameSpansSameRow(g, r, c1, c2, n - 1);
      var s := ScanRow(g, r, c1, n - 1);
      assert s == ScanRow(g, r, c2, n - 1);
      PlaceSameSpans(s, r, n - 1, c1[n - 1], c2[n - 1]);
      assert ScanRow(g, r, c1, n) == Place(s, r, n - 1, c1[n - 1]);
      assert ScanRow(g, r, c2, n) == Place(s, r, n - 1, c2[n - 1]);
    }
  }

  lemma {:induction false} SameSpansSameRows(rows1: Rows, rows2: Rows, n: nat)
    requires SameSpans(rows1, rows2) && n <= |rows1|
    ensures ScanRows(rows1, n) == ScanRows(rows2, n)
  {
    if n > 0 {
      SameSpansSameRows(rows1, rows2, n - 1);
      SameSpansSameRow(ScanRows(rows1, n - 1), n - 1, rows1[n - 1], rows2[n - 1], |rows1[n - 1]|);
    }
  }

  /** An absent or zero span and a span of 1 give the same grid. */
  lemma ZeroSpanActsAsOne(rows: Rows, r: int, k: int)
    requires 0 <= r < |rows| && 0 <= k < |rows[r]|
    requires rows[r][k].rowSpan == 0 || rows[r][k].colSpan == 0
    ensures var c := rows[r][k];
            var c' := c.(rowSpan := EffSpan(c.rowSpan), colSpan := EffSpan(c.colSpan));
            CellMap(rows[r := rows[r][k := c']]) == CellMap(rows)
  {
    var c := rows[r][k];
    var c' := c.(rowSpan := EffSpan(c.rowSpan), colSpan := EffSpan(c.colSpan));
    var rows' := rows[r := rows[r][k := c']];
    SameSpansSameRows(rows', rows, |rows|);
  }

  /**
   * Within one row, with no negative span, successive cells get strictly
   * increasing columns.
   */
  lemma {:induction false} RowColumnsIncrease(g: Grid, r: int, cells: seq<Cell>, a: nat, b: nat)
    requires PositiveSpans(g) && a < b < |cells|
    requires forall k :: 0 <= k < |cells| ==> cells[k].colSpan >= 0
    ensures ColumnOf(g, r, cells, a) < ColumnOf(g, r, cells, b)
  {
    assert ScanRow(g, r, cells, b).col == ColumnOf(g, r, cells, b - 1) + EffSpan(cells[b - 1].colSpan);
    if a < b - 1 {
      RowColumnsIncrease(g, r, cells, a, b - 1);
    }
  }

  // ---------------------------------------------------------------------
  // getCellIndex
  // ---------------------------------------------------------------------

  /**
   * The fold of `getCellIndex` as written: it counts the columns left of `n`
   * whose covering cell starts in row `r`, so a cell `k` columns wide counts
   * `k` times.  None when a key it reads is missing (a TypeError).
   */
  function CountStarting(g: Grid, r: int, n: int): Option<nat>
    decreases n
  {
    if n <= 0 then Some(0)
    else match CountStarting(g, r, n - 1)
      case None => None
      case Some(c) =>
        if (r, n - 1) !in g then None
        else Some(if g[(r, n - 1)].rowIndex == r then c + 1 else c)
  }

  /** The columns left of `c` whose covering cell starts in row `r`. */
  function StartingColumns(g: Grid, r: int, c: int): set<int>
  {
    set j | 0 <= j < c && (r, j) in g && g[(r, j)].rowIndex == r
  }

  /**
   * `getCellIndex` succeeds iff every key it reads exists; it then counts grid
   * columns (not distinct cells) left of `c` that start in row `r`, so the
   * count is at most `c`.
   */
  lemma {:induction false} CellIndexCountsColumns(g: Grid, r: int, c: int)
    ensures CountStarting(g, r, c).Some? <==> forall j :: 0 <= j < c ==> (r, j) in g
    ensures CountStarting(g, r, c).Some? ==>
              CountStarting(g, r, c).value == |StartingColumns(g, r, c)|
              && CountStarting(g, r, c).value <= (if c < 0 then 0 else c)
  {
    if c > 0 {
      CellIndexCountsColumns(g, r, c - 1);
      StartingStep(g, r, c);
    } else {
      assert StartingColumns(g, r, c) == {};
    }
  }

  /** Column `c - 1` joins the starting columns exactly when its cell starts in row `r`. */
  lemma StartingStep(g: Grid, r: int, c: int)
    requires c > 0
    ensures (r, c - 1) in g && g[(r, c - 1)].rowIndex == r ==>
              |StartingColumns(g, r, c)| == |StartingColumns(g, r, c - 1)| + 1
    ensures !((r, c - 1) in g && g[(r, c - 1)].rowIndex == r) ==>
              StartingColumns(g, r, c) == StartingColumns(g, r, c - 1)
  {
    var prev := StartingColumns(g, r, c - 1);
    if (r, c - 1) in g && g[(r, c - 1)].rowIndex == r {
      assert StartingColumns(g, r, c) == prev + {c - 1};
      assert c - 1 !in prev;
    } else {
      assert StartingColumns(g, r, c) == prev;
    }
  }

  /**
   * The count `getCellIndex` evidently means: the cells of row `r` that start
   * left of column `n`, each counted once, at its origin column.
   */
  function CellIndex(g: Grid, r: int, n: int): Option<nat>
    decreases n
  {
    if n <= 0 then Some(0)
    else match CellIndex(g, r, n - 1)
      case None => None
      case Some(c) =>
        if (r, n - 1) !in g then None
        else Some(if g[(r, n - 1)].rowIndex == r && g[(r, n - 1)].colIndex == n - 1 then c + 1 else c)
  }

  /** Column `j` of row `r` is where its covering cell starts. */
  predicate Origin(g: Grid, r: int, j: int)
  {
    (r, j) in g && g[(r, j)].rowIndex == r && g[(r, j)].colIndex == j
  }

  /** The indexes of the cells of row `r` that start left of column `c`. */
  function CellsLeftOf(g: Grid, r: int, c: int): set<int>
  {
    set j | 0 <= j < c && Origin(g, r, j) :: g[(r, j)].cellIndex
  }

  /**
   * On a grid where one cell has one descriptor, the corrected count reads
   * the same keys as `getCellIndex` and counts each cell of the row that
   * starts left of `c` exactly once.
   */
  lemma {:induction false} CellIndexCountsCells(g: Grid, r: int, c: int)
    requires Unique(g)
    ensures CellIndex(g, r, c).Some? <==> forall j :: 0 <= j < c ==> (r, j) in g
    ensures CellIndex(g, r, c).Some? ==> CellIndex(g, r, c).value == |CellsLeftOf(g, r, c)|
    decreases c
  {
    if c > 0 {
      CellIndexCountsCells(g, r, c - 1);
      CellsLeftOfStep(g, r, c - 1);
    } else {
      assert CellsLeftOf(g, r, c) == {};
    }
  }

  /** Passing column `c` adds its cell when the cell starts there, and that cell was not counted yet. */
  lemma CellsLeftOfStep(g: Grid, r: int, c: int)
    requires Unique(g) && c >= 0
    ensures Origin(g, r, c) ==> |CellsLeftOf(g, r, c + 1)| == |CellsLeftOf(g, r, c)| + 1
    ensures !Origin(g, r, c) ==> CellsLeftOf(g, r, c + 1) == CellsLeftOf(g, r, c)
  {
    var prev := CellsLeftOf(g, r, c);
    if Origin(g, r, c) {
      var k := g[(r, c)].cellIndex;
      assert CellsLeftOf(g, r, c + 1) == prev + {k};
      assert k !in prev;
    } else {
      assert CellsLeftOf(g, r, c + 1) == prev;
    }
  }

  /** `getCellIndex` as written: None where the source reads a missing key and throws. */
  method GetCellIndex(cells: Grid, rowIndex: int, colIndex: int) returns (res: Option<nat>)
    ensures res == CountStarting(cells, rowIndex, colIndex)
  {
    var cellIndex := 0;
    var i := 0;
    while i < colIndex
      invariant colIndex > 0 ==> 0 <= i <= colIndex
      invariant colIndex <= 0 ==> i == 0
      invariant CountStarting(cells, rowIndex, i) == Some(cellIndex)
    {
      if (rowIndex, i) !in cells {
        assert CountStarting(cells, rowIndex, i + 1) == None;
        MissingStaysMissing(cells, rowIndex, i + 1, colIndex);
        return None;
      }
      var cell := cells[(rowIndex, i)];
      if cell.rowIndex == rowIndex {
        cellIndex := cellIndex + 1;
      }
      i := i + 1;
    }
    return Some(cellIndex);
  }

  lemma {:induction false} MissingStaysMissing(g: Grid, r: int, a: int, b: int)
    requires a <= b && CountStarting(g, r, a) == None
    ensures CountStarting(g, r, b) == None
    decreases b - a
  {
    if a < b {
      MissingStaysMissing(g, r, a, b - 1);
    }
  }

  /** The count as written only grows as the loop goes further right. */
  lemma {:induction false} CountStartingGrows(g: Grid, r: int, a: int, b: int)
    requires a <= b && CountStarting(g, r, b).Some?
    ensures CountStarting(g, r, a).Some? && CountStarting(g, r, a).value <= CountStarting(g, r, b).value
    decreases b - a
  {
    if a < b {
      if b <= 0 {
      } else {
        CountStartingGrows(g, r, a, b - 1);
      }
    }
  }

  /**
   * Where no cell of row `r` left of column `c` is wider than one column,
   * the count as written and the corrected count agree.
   */
  lemma {:induction false} CountsAgreeOnNarrowCells(g: Grid, r: int, c: int)
    requires forall j :: 0 <= j < c && (r, j) in g && g[(r, j)].rowIndex == r ==> g[(r, j)].colIndex == j
    ensures CountStarting(g, r, c) == CellIndex(g, r, c)
  {
    if c > 0 {
      CountsAgreeOnNarrowCells(g, r, c - 1);
    }
  }
}
