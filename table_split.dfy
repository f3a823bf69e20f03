/**
 * What `splitCell` (src/lib/editor/helpers/table-editor.ts) does to a table,
 * for every table and every position.
 */
module TableFactsSplit {
  import opened Wrappers
  import opened Document
  import opened TableGrid
  import opened TableEditor
  import opened TableFacts

  /** One row of the split inserts a cell per position but the origin; nothing else changes length. */
  lemma {:induction false} SplitRowCount(g: Grid, d: Desc, rows: Rows, i: nat, n: nat)
    ensures SplitRow(g, d, rows, i, n).Ok? ==>
              var r := SplitRow(g, d, rows, i, n).value;
              |r| == |rows| && TotalCells(r) == TotalCells(rows) + n - (if i == 0 && n > 0 then 1 else 0)
  {
    if n > 0 {
      SplitRowCount(g, d, rows, i, n - 1);
      var prev := SplitRow(g, d, rows, i, n - 1);
      if prev.Ok? {
        SplitAtCount(g, d, prev.value, i, n - 1);
      }
    }
  }

  /** One insert adds one cell, except at the origin. */
  lemma SplitAtCount(g: Grid, d: Desc, acc: Rows, i: nat, j: nat)
    ensures SplitAt(g, d, acc, i, j).Ok? ==>
              var r := SplitAt(g, d, acc, i, j).value;
              |r| == |acc| && TotalCells(r) == TotalCells(acc) + (if i == 0 && j == 0 then 0 else 1)
  {
    var k := CountStarting(g, d.rowIndex + i, d.colIndex + j);
    if !(i == 0 && j == 0) && k.Some? && SplitAt(g, d, acc, i, j).Ok? {
      var r := d.rowIndex + i;
      TotalCellsUpdate(acc, r, acc[r][..k.value] + [EmptyCell] + acc[r][k.value..]);
    }
  }

  lemma {:induction false} SplitRowsCount(g: Grid, d: Desc, rows: Rows, n: nat)
    ensures SplitRows(g, d, rows, n).Ok? ==>
              var r := SplitRows(g, d, rows, n).value;
              |r| == |rows| && TotalCells(r) == TotalCells(rows) + n * Count(d.colSpan) - (if n > 0 && d.colSpan > 0 then 1 else 0)
  {
    if n > 0 {
      SplitRowsCount(g, d, rows, n - 1);
      var prev := SplitRows(g, d, rows, n - 1);
      if prev.Ok? {
        var w := Count(d.colSpan);
        SplitRowCount(g, d, prev.value, n - 1, w);
        assert n * w == (n - 1) * w + w;
      }
    }
  }

  /** `x` is `y` with empty cells slipped in; the cells of `y` keep their order. */
  predicate Padded(x: seq<Cell>, y: seq<Cell>)
    decreases |x|
  {
    if |x| == 0 then |y| == 0
    else (|y| > 0 && x[0] == y[0] && Padded(x[1..], y[1..])) || (x[0] == EmptyCell && Padded(x[1..], y))
  }

  lemma {:induction false} PaddedSame(y: seq<Cell>)
    ensures Padded(y, y)
    decreases |y|
  {
    if |y| > 0 {
      PaddedSame(y[1..]);
    }
  }

  /** Inserting one more empty cell anywhere keeps a padded row padded. */
  lemma {:induction false} PaddedInsert(x: seq<Cell>, y: seq<Cell>, p: nat)
    requires Padded(x, y) && p <= |x|
    ensures Padded(x[..p] + [EmptyCell] + x[p..], y)
    decreases p
  {
    var x' := x[..p] + [EmptyCell] + x[p..];
    if p == 0 {
      assert x'[1..] == x;
    } else {
      assert x'[0] == x[0];
      assert x'[1..] == x[1..][..p - 1] + [EmptyCell] + x[1..][p - 1..];
      if |y| > 0 && x[0] == y[0] && Padded(x[1..], y[1..]) {
        PaddedInsert(x[1..], y[1..], p - 1);
      } else {
        PaddedInsert(x[1..], y, p - 1);
      }
    }
  }

  /**
   * The insert for column `j` of row `i` of the cell's rectangle: the row
   * exists, `getCellIndex` reads no missing key, and its index is within the
   * row as it is by then (the row has gained a cell for each earlier column
   * but the origin).
   */
  predicate SplitFits(g: Grid, d: Desc, rows: Rows, i: nat, j: nat)
  {
    var r := d.rowIndex + i;
    && CountStarting(g, r, d.colIndex + j).Some?
    && 0 <= r < |rows|
    && CountStarting(g, r, d.colIndex + j).value <= |rows[r]| + j - (if i == 0 then 1 else 0)
  }

  /**
   * Row `i` of the rectangle once the first `n` columns are done: the old
   * row with one empty cell per column but the origin, the first of them at
   * the index `getCellIndex` gives for its column.
   */
  predicate NewCells(g: Grid, d: Desc, i: nat, n: nat, y: seq<Cell>, x: seq<Cell>)
  {
    var added := if i == 0 && n > 0 then n - 1 else n;
    var first := if i == 0 then 1 else 0;
    && Padded(x, y) && |x| == |y| + added
    && (added > 0 ==>
          && CountStarting(g, d.rowIndex + i, d.colIndex + first).Some?
          && CountStarting(g, d.rowIndex + i, d.colIndex + first).value < |x|
          && x[CountStarting(g, d.rowIndex + i, d.colIndex + first).value] == EmptyCell)
  }

  /** One more insert, at the index as written for column `j`, keeps the row's description. */
  lemma NewCellsInsert(g: Grid, d: Desc, i: nat, j: nat, y: seq<Cell>, x: seq<Cell>, k: nat)
    requires NewCells(g, d, i, j, y, x) && !(i == 0 && j == 0)
    requires CountStarting(g, d.rowIndex + i, d.colIndex + j) == Some(k) && k <= |x|
    ensures NewCells(g, d, i, j + 1, y, x[..k] + [EmptyCell] + x[k..])
  {
    PaddedInsert(x, y, k);
    var first := if i == 0 then 1 else 0;
    if j > first {
      CountStartingGrows(g, d.rowIndex + i, d.colIndex + first, d.colIndex + j);
    }
  }

  /** Every insert of the first `n` columns of row `i` fits. */
  predicate AllFit(g: Grid, d: Desc, rows: Rows, i: nat, n: nat)
  {
    forall j :: 0 <= j < n && !(i == 0 && j == 0) ==> SplitFits(g, d, rows, i, j)
  }

  lemma AllFitStep(g: Grid, d: Desc, rows: Rows, i: nat, n: nat)
    requires n > 0
    ensures AllFit(g, d, rows, i, n) <==> AllFit(g, d, rows, i, n - 1) && ((i == 0 && n == 1) || SplitFits(g, d, rows, i, n - 1))
  {
  }

  /** After the inserts of the first `n` columns of row `i`: only that row has changed. */
  predicate RowDone(g: Grid, d: Desc, rows: Rows, i: nat, n: nat, s: Rows)
  {
    && |s| == |rows|
    && (forall r :: 0 <= r < |rows| && r != d.rowIndex + i ==> s[r] == rows[r])
    && (0 <= d.rowIndex + i < |rows| ==> NewCells(g, d, i, n, rows[d.rowIndex + i], s[d.rowIndex + i]))
  }

  /** The inserts of one row of the rectangle that go through change only that row. */
  lemma {:induction false} SplitRowDone(g: Grid, d: Desc, rows: Rows, i: nat, n: nat)
    ensures SplitRow(g, d, rows, i, n).Ok? ==> RowDone(g, d, rows, i, n, SplitRow(g, d, rows, i, n).value)
  {
    if n == 0 {
      if 0 <= d.rowIndex + i < |rows| {
        PaddedSame(rows[d.rowIndex + i]);
      }
    } else {
      SplitRowDone(g, d, rows, i, n - 1);
      var prev := SplitRow(g, d, rows, i, n - 1);
      if prev.Ok? {
        SplitRowStep(g, d, rows, i, n - 1, prev.value);
      }
    }
  }

  lemma SplitRowStep(g: Grid, d: Desc, rows: Rows, i: nat, j: nat, acc: Rows)
    requires RowDone(g, d, rows, i, j, acc)
    ensures SplitAt(g, d, acc, i, j).Ok? ==> RowDone(g, d, rows, i, j + 1, SplitAt(g, d, acc, i, j).value)
  {
    var r := d.rowIndex + i;
    if i == 0 && j == 0 {
      assert SplitAt(g, d, acc, i, j) == Ok(acc);
      OriginAddsNothing(g, d, rows, acc);
    } else {
      var k := CountStarting(g, r, d.colIndex + j);
      if k.Some? && 0 <= r < |acc| && k.value <= |acc[r]| {
        var x := acc[r][..k.value] + [EmptyCell] + acc[r][k.value..];
        assert SplitAt(g, d, acc, i, j) == Ok(acc[r := x]);
        NewCellsInsert(g, d, i, j, rows[r], acc[r], k.value);
        RowDoneSet(g, d, rows, i, j + 1, acc, x);
      } else if k.Some? {
        assert SplitAt(g, d, acc, i, j) == InsertCell(acc, r, k.value, EmptyCell);
      } else {
        assert SplitAt(g, d, acc, i, j) == Err(MissingCell);
      }
    }
  }

  /** The origin's own column adds no cell. */
  lemma OriginAddsNothing(g: Grid, d: Desc, rows: Rows, acc: Rows)
    requires RowDone(g, d, rows, 0, 0, acc)
    ensures RowDone(g, d, rows, 0, 1, acc)
  {
  }

  lemma RowDoneSet(g: Grid, d: Desc, rows: Rows, i: nat, n: nat, acc: Rows, x: seq<Cell>)
    requires |acc| == |rows| && 0 <= d.rowIndex + i < |rows|
    requires forall r :: 0 <= r < |rows| && r != d.rowIndex + i ==> acc[r] == rows[r]
    requires NewCells(g, d, i, n, rows[d.rowIndex + i], x)
    ensures RowDone(g, d, rows, i, n, acc[d.rowIndex + i := x])
  {
  }

  /** The inserts of one row go through exactly when each of them fits. */
  lemma {:induction false} SplitRowOk(g: Grid, d: Desc, rows: Rows, i: nat, n: nat)
    ensures SplitRow(g, d, rows, i, n).Ok? <==> AllFit(g, d, rows, i, n)
  {
    if n > 0 {
      SplitRowOk(g, d, rows, i, n - 1);
      SplitRowDone(g, d, rows, i, n - 1);
      AllFitStep(g, d, rows, i, n);
      var prev := SplitRow(g, d, rows, i, n - 1);
      if prev.Ok? {
        SplitAtOk(g, d, rows, i, n - 1, prev.value);
      }
    }
  }

  /** One insert goes through exactly when it fits. */
  lemma SplitAtOk(g: Grid, d: Desc, rows: Rows, i: nat, j: nat, acc: Rows)
    requires RowDone(g, d, rows, i, j, acc)
    ensures SplitAt(g, d, acc, i, j).Ok? <==> (i == 0 && j == 0) || SplitFits(g, d, rows, i, j)
  {
    if !(i == 0 && j == 0) {
      var r := d.rowIndex + i;
      var k := CountStarting(g, r, d.colIndex + j);
      assert SplitAt(g, d, acc, i, j) == (if k.None? then Err(MissingCell) else InsertCell(acc, r, k.value, EmptyCell));
      assert SplitFits(g, d, rows, i, j) <==> k.Some? && 0 <= r < |acc| && k.value <= |acc[r]|;
    }
  }

  /** After the first `n` rows of the rectangle: those rows have their new cells, the others are as they were. */
  predicate RowsDone(g: Grid, d: Desc, rows: Rows, n: nat, s: Rows)
  {
    && |s| == |rows|
    && forall r :: 0 <= r < |rows| ==>
         if d.rowIndex <= r < d.rowIndex + n then NewCells(g, d, r - d.rowIndex, Count(d.colSpan), rows[r], s[r])
         else s[r] == rows[r]
  }

  /** Every insert of the first `n` rows of the rectangle fits. */
  predicate RowsFit(g: Grid, d: Desc, rows: Rows, n: nat)
  {
    forall i, j :: 0 <= i < n && 0 <= j < Count(d.colSpan) && !(i == 0 && j == 0) ==> SplitFits(g, d, rows, i, j)
  }

  /** Every row of the rectangle in turn; the rows outside it do not change. */
  lemma {:induction false} SplitRowsDone(g: Grid, d: Desc, rows: Rows, n: nat)
    ensures SplitRows(g, d, rows, n).Ok? ==> RowsDone(g, d, rows, n, SplitRows(g, d, rows, n).value)
  {
    if n == 0 {
    } else {
      SplitRowsDone(g, d, rows, n - 1);
      var prev := SplitRows(g, d, rows, n - 1);
      if prev.Ok? {
        SplitRowsStep(g, d, rows, n - 1, prev.value);
      }
    }
  }

  lemma SplitRowsStep(g: Grid, d: Desc, rows: Rows, m: nat, acc: Rows)
    requires RowsDone(g, d, rows, m, acc)
    ensures var s := SplitRow(g, d, acc, m, Count(d.colSpan));
            s.Ok? ==> RowsDone(g, d, rows, m + 1, s.value)
  {
    var w := Count(d.colSpan);
    SplitRowDone(g, d, acc, m, w);
    var r := d.rowIndex + m;
    assert 0 <= r < |rows| ==> acc[r] == rows[r];
  }

  /** The split's inserts go through exactly when every one of them fits. */
  lemma {:induction false} SplitRowsOk(g: Grid, d: Desc, rows: Rows, n: nat)
    ensures SplitRows(g, d, rows, n).Ok? <==> RowsFit(g, d, rows, n)
  {
    if n > 0 {
      SplitRowsOk(g, d, rows, n - 1);
      SplitRowsDone(g, d, rows, n - 1);
      var prev := SplitRows(g, d, rows, n - 1);
      var m := n - 1;
      var w := Count(d.colSpan);
      RowsFitStep(g, d, rows, m);
      if prev.Ok? {
        var acc := prev.value;
        SplitRowOk(g, d, acc, m, w);
        SameRowSameFit(g, d, acc, rows, m, w);
      }
    }
  }

  lemma RowsFitStep(g: Grid, d: Desc, rows: Rows, m: nat)
    ensures RowsFit(g, d, rows, m + 1) <==> RowsFit(g, d, rows, m) && AllFit(g, d, rows, m, Count(d.colSpan))
  {
  }

  /** Whether the inserts of row `m` fit depends only on that row. */
  lemma SameRowSameFit(g: Grid, d: Desc, acc: Rows, rows: Rows, m: nat, w: nat)
    requires RowsDone(g, d, rows, m, acc)
    ensures AllFit(g, d, acc, m, w) <==> AllFit(g, d, rows, m, w)
  {
    var r := d.rowIndex + m;
    assert 0 <= r < |rows| ==> acc[r] == rows[r];
    forall j | 0 <= j < w ensures SplitFits(g, d, acc, m, j) == SplitFits(g, d, rows, m, j) {
    }
  }

  /**
   * The table after splitting the cell `d`: as many cells as before plus one
   * per position of the rectangle but the origin; the rows outside the
   * rectangle as they were; each lower row of the rectangle the old row with
   * an empty cell for every column of the cell, the first at the index
   * `getCellIndex` gives; the first row likewise, but for the origin's own
   * column, and with the cell at the origin's index given spans of one.
   */
  ghost predicate SplitDone(g: Grid, d: Desc, rows: Rows, rows': Rows)
    requires DescOf(rows, d)
  {
    && |rows'| == |rows|
    && TotalCells(rows') == TotalCells(rows) + d.rowSpan * d.colSpan - 1
    && (forall i :: 0 <= i < |rows| && !(d.rowIndex <= i < d.rowIndex + d.rowSpan) ==> rows'[i] == rows[i])
    && (forall i :: d.rowIndex < i < d.rowIndex + d.rowSpan && i < |rows| ==>
          NewCells(g, d, i - d.rowIndex, d.colSpan, rows[i], rows'[i]))
    && ValidCell(rows', d.rowIndex, d.cellIndex)
    && rows'[d.rowIndex][d.cellIndex].rowSpan == 1 && rows'[d.rowIndex][d.cellIndex].colSpan == 1
    && exists x: seq<Cell> :: NewCells(g, d, 0, d.colSpan, rows[d.rowIndex], x)
         && d.cellIndex < |x| && rows'[d.rowIndex] == x[d.cellIndex := x[d.cellIndex].(rowSpan := 1, colSpan := 1)]
  }

  /** The split of one cell of the table, on any grid the inserts read. */
  lemma SplitCellEffect(g: Grid, d: Desc, rows: Rows)
    requires DescOf(rows, d)
    ensures SplitRows(g, d, rows, Count(d.rowSpan)).Ok? <==> RowsFit(g, d, rows, d.rowSpan)
    ensures SplitRows(g, d, rows, Count(d.rowSpan)).Ok? ==>
              var s := SplitRows(g, d, rows, Count(d.rowSpan)).value;
              && ValidCell(s, d.rowIndex, d.cellIndex)
              && SplitDone(g, d, rows, s[d.rowIndex := s[d.rowIndex][d.cellIndex := s[d.rowIndex][d.cellIndex].(rowSpan := 1, colSpan := 1)]])
  {
    SplitRowsCount(g, d, rows, Count(d.rowSpan));
    SplitRowsDone(g, d, rows, Count(d.rowSpan));
    SplitRowsOk(g, d, rows, Count(d.rowSpan));
    var s := SplitRows(g, d, rows, Count(d.rowSpan));
    if s.Ok? {
      var rows' := s.value;
      assert NewCells(g, d, 0, d.colSpan, rows[d.rowIndex], rows'[d.rowIndex]);
      assert ValidCell(rows', d.rowIndex, d.cellIndex);
      var cell: Cell := rows'[d.rowIndex][d.cellIndex];
      TotalCellsUpdate(rows', d.rowIndex, rows'[d.rowIndex][d.cellIndex := cell.(rowSpan := 1, colSpan := 1)]);
    }
  }

  /**
   * `splitCell` throws on a position without a cell, and otherwise exactly
   * when an insert reads a missing key or lands past the end of its row (the
   * index as written overcounts wide cells).  A split that goes through
   * leaves the data alone and changes the rows as `SplitDone` describes.
   */
  lemma SplitEffect(t: TableValue, r: int, c: int)
    ensures (r, c) !in CellMap(t.rows) ==> SplitSpec(t, r, c) == Err(MissingCell)
    ensures (r, c) in CellMap(t.rows) ==>
              var d := CellMap(t.rows)[(r, c)];
              && DescOf(t.rows, d)
              && (SplitSpec(t, r, c).Ok? <==> RowsFit(CellMap(t.rows), d, t.rows, d.rowSpan))
              && (SplitSpec(t, r, c).Ok? ==>
                    SplitSpec(t, r, c).value.data == t.data && SplitDone(CellMap(t.rows), d, t.rows, SplitSpec(t, r, c).value.rows))
  {
    var g := CellMap(t.rows);
    if (r, c) in g {
      DescAt(t.rows, (r, c));
      SplitCellEffect(g, g[(r, c)], t.rows);
    }
  }
}
