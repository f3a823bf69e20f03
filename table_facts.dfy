/**
 * What the table commands of src/lib/editor/helpers/table-editor.ts
 * guarantee: exactly when each one throws, what a successful run changes and
 * what it leaves alone, and worked examples on small tables.
 */
module TableFacts {
  import opened Wrappers
  import opened Document
  import opened TableGrid
  import opened TableEditor

  // ---------------------------------------------------------------------
  // Counting cells and widths
  // ---------------------------------------------------------------------

  lemma {:induction false} TotalCellsConcat(a: Rows, b: Rows)
    ensures TotalCells(a + b) == TotalCells(a) + TotalCells(b)
    decreases |b|
  {
    if |b| == 0 {
      assert a + b == a;
    } else {
      var n := |b| - 1;
      assert (a + b)[..|a + b| - 1] == a + b[..n];
      TotalCellsConcat(a, b[..n]);
    }
  }

  /** Removing a row removes exactly its cells from the count. */
  lemma TotalCellsRemove(rows: Rows, r: nat)
    requires r < |rows|
    ensures TotalCells(rows[..r] + rows[r + 1..]) == TotalCells(rows) - |rows[r]|
  {
    assert rows[..r] + [rows[r]] + rows[r + 1..] == rows;
    TotalCellsSplice(rows[..r], rows[r], rows[r + 1..], rows[..r] + rows[r + 1..]);
  }

  /** Inserting a row adds exactly its cells to the count. */
  lemma TotalCellsInsert(rows: Rows, r: nat, row: seq<Cell>)
    requires r <= |rows|
    ensures TotalCells(rows[..r] + [row] + rows[r..]) == TotalCells(rows) + |row|
  {
    assert rows[..r] + rows[r..] == rows;
    TotalCellsSplice(rows[..r], row, rows[r..], rows);
  }

  lemma TotalCellsSplice(a: Rows, row: seq<Cell>, b: Rows, rows: Rows)
    requires a + b == rows
    ensures TotalCells(a + [row] + b) == TotalCells(rows) + |row|
  {
    TotalCellsAppend(a, row);
    TotalCellsConcat(a + [row], b);
    TotalCellsConcat(a, b);
  }

  lemma {:induction false} SumConcat(a: seq<int>, b: seq<int>)
    ensures Sum(a + b) == Sum(a) + Sum(b)
    decreases |b|
  {
    if |b| == 0 {
      assert a + b == a;
    } else {
      var n := |b| - 1;
      assert (a + b)[..|a + b| - 1] == a + b[..n];
      SumConcat(a, b[..n]);
    }
  }

  /** The width `removeCol` recomputes is the old total less the removed column. */
  lemma SumRemove(s: seq<int>, k: nat)
    requires k < |s|
    ensures Sum(s[..k] + s[k + 1..]) == Sum(s) - s[k]
  {
    SumConcat(s[..k], s[k + 1..]);
    SumSplit(s, k + 1);
    SumLast(s, k + 1);
  }

  /** The sum of a list is the sum of a prefix plus the sum of the rest. */
  lemma SumSplit(s: seq<int>, n: nat)
    requires n <= |s|
    ensures Sum(s) == Sum(s[..n]) + Sum(s[n..])
  {
    SumConcat(s[..n], s[n..]);
    assert s[..n] + s[n..] == s;
  }

  lemma SumLast(s: seq<int>, n: nat)
    requires 0 < n <= |s|
    ensures Sum(s[..n]) == Sum(s[..n - 1]) + s[n - 1]
  {
    assert s[..n][..n - 1] == s[..n - 1];
  }

  // ---------------------------------------------------------------------
  // removeRow
  // ---------------------------------------------------------------------

  /** The check loop passes iff every column of the row has a cell spanning one row. */
  lemma {:induction false} RemoveRowCheckMeaning(g: Grid, r: int, n: nat)
    ensures RemoveRowCheck(g, r, n).None? <==> forall j :: 0 <= j < n ==> (r, j) in g && g[(r, j)].rowSpan <= 1
    ensures RemoveRowCheck(g, r, n) == Some(MissingCell) ==> exists j :: 0 <= j < n && (r, j) !in g
    ensures RemoveRowCheck(g, r, n) == Some(SplitBeforeRemoveRow) ==>
              exists j :: 0 <= j < n && (r, j) in g && g[(r, j)].rowSpan > 1
    ensures RemoveRowCheck(g, r, n) in {None, Some(MissingCell), Some(SplitBeforeRemoveRow)}
  {
    if n > 0 {
      RemoveRowCheckMeaning(g, r, n - 1);
    }
  }

  /**
   * `removeRow` refuses the last row and any row crossed by a taller cell,
   * and otherwise succeeds exactly for a row of the table.
   */
  lemma RemoveRowFails(t: TableValue, r: int)
    ensures |t.data.rows| == 1 ==> RemoveRowSpec(t, r) == Err(LastRow)
    ensures RemoveRowSpec(t, r).Ok? <==>
              && |t.data.rows| != 1 && 0 <= r < |t.rows|
              && forall j :: 0 <= j < |t.data.cols| ==> (r, j) in CellMap(t.rows) && CellMap(t.rows)[(r, j)].rowSpan <= 1
  {
    RemoveRowCheckMeaning(CellMap(t.rows), r, |t.data.cols|);
  }

  /**
   * A successful `removeRow` drops that row and its height, and no cell of
   * another row reached into it.
   */
  lemma RemoveRowResult(t: TableValue, r: int)
    ensures RemoveRowSpec(t, r).Ok? ==>
              var t' := RemoveRowSpec(t, r).value;
              && |t'.rows| == |t.rows| - 1
              && (forall i :: 0 <= i < r ==> t'.rows[i] == t.rows[i])
              && (forall i :: r <= i < |t'.rows| ==> t'.rows[i] == t.rows[i + 1])
              && TotalCells(t'.rows) == TotalCells(t.rows) - |t.rows[r]|
              && (forall j :: 0 <= j < |t.data.cols| ==> (r, j) in CellMap(t.rows) && CellMap(t.rows)[(r, j)].rowIndex == r)
              && t'.data.cols == t.data.cols && t'.data.width == t.data.width
              && (r < |t.data.rows| ==> (|t'.data.rows| == |t.data.rows| - 1
                                          && t'.data.rows == t.data.rows[..r] + t.data.rows[r + 1..]))
  {
    var g := CellMap(t.rows);
    RemoveRowCheckMeaning(g, r, |t.data.cols|);
    if RemoveRowSpec(t, r).Ok? {
      OneRowSpans(t.rows, r, |t.data.cols|);
      TotalCellsRemove(t.rows, r);
      RemovedAt(t.rows, r, RemoveRowSpec(t, r).value.rows);
    }
  }

  /** Removing position `r` keeps what is before it and shifts what is after it down by one. */
  lemma RemovedAt<T>(s: seq<T>, r: int, s': seq<T>)
    requires 0 <= r < |s| && s' == s[..r] + s[r + 1..]
    ensures |s'| == |s| - 1
    ensures forall i :: 0 <= i < r ==> s'[i] == s[i]
    ensures forall i :: r <= i < |s'| ==> s'[i] == s[i + 1]
  {
  }

  /** A cell one row high that covers row `r` starts in row `r`. */
  lemma OneRowSpans(rows: Rows, r: int, n: nat)
    requires forall j :: 0 <= j < n ==> (r, j) in CellMap(rows) && CellMap(rows)[(r, j)].rowSpan <= 1
    ensures forall j :: 0 <= j < n ==> (r, j) in CellMap(rows) && CellMap(rows)[(r, j)].rowIndex == r
  {
    CellMapFacts(rows);
    forall j | 0 <= j < n
      ensures CellMap(rows)[(r, j)].rowIndex == r
    {
      assert InFootprint(CellMap(rows)[(r, j)], (r, j));
    }
  }

  // ---------------------------------------------------------------------
  // removeCol
  // ---------------------------------------------------------------------

  lemma {:induction false} RemoveColCheckMeaning(g: Grid, c: int, n: nat)
    ensures RemoveColCheck(g, c, n).None? <==> forall i :: 0 <= i < n ==> (i, c) in g && g[(i, c)].colSpan <= 1
    ensures RemoveColCheck(g, c, n) == Some(MissingCell) ==> exists i :: 0 <= i < n && (i, c) !in g
    ensures RemoveColCheck(g, c, n) == Some(SplitBeforeRemoveCol) ==>
              exists i :: 0 <= i < n && (i, c) in g && g[(i, c)].colSpan > 1
    ensures RemoveColCheck(g, c, n) in {None, Some(MissingCell), Some(SplitBeforeRemoveCol)}
  {
    if n > 0 {
      RemoveColCheckMeaning(g, c, n - 1);
    }
  }

  /** Whether the (intended) removal loop deletes a cell from row `i`. */
  predicate RemovesFrom(g: Grid, c: int, n: nat, i: int)
  {
    0 <= i < n && (i, c) in g && g[(i, c)].rowIndex == i
  }

  /**
   * The intended removal loop succeeds iff every key it reads exists and
   * every cell starting in its own row is addressable; it then deletes from
   * each such row exactly that cell and leaves every other row alone.
   */
  lemma {:induction false} RemoveColCellsMeaning(g: Grid, rows: Rows, c: int, n: nat)
    ensures RemoveColCells(g, rows, c, n).Ok? <==>
              forall i :: 0 <= i < n ==> (i, c) in g && (g[(i, c)].rowIndex == i ==> ValidCell(rows, i, g[(i, c)].cellIndex))
    ensures RemoveColCells(g, rows, c, n).Ok? ==>
              var rows' := RemoveColCells(g, rows, c, n).value;
              && |rows'| == |rows|
              && forall i :: 0 <= i < |rows| ==>
                   rows'[i] == if RemovesFrom(g, c, n, i)
                               then rows[i][..g[(i, c)].cellIndex] + rows[i][g[(i, c)].cellIndex + 1..]
                               else rows[i]
  {
    if n > 0 {
      RemoveColCellsMeaning(g, rows, c, n - 1);
      var prev := RemoveColCells(g, rows, c, n - 1);
      if prev.Ok? {
        RemoveColCellsStep(g, rows, c, n, prev.value);
      }
    }
  }

  /** The removal loop's body for row `n - 1`, after the rows before it. */
  lemma RemoveColCellsStep(g: Grid, rows: Rows, c: int, n: nat, acc: Rows)
    requires n > 0 && RemoveColCells(g, rows, c, n - 1) == Ok(acc)
    requires forall i :: 0 <= i < n - 1 ==> (i, c) in g && (g[(i, c)].rowIndex == i ==> ValidCell(rows, i, g[(i, c)].cellIndex))
    requires |acc| == |rows|
    requires forall i :: 0 <= i < |rows| ==>
               acc[i] == if RemovesFrom(g, c, n - 1, i)
                         then assert ValidCell(rows, i, g[(i, c)].cellIndex);
                              rows[i][..g[(i, c)].cellIndex] + rows[i][g[(i, c)].cellIndex + 1..]
                         else rows[i]
    ensures RemoveColCells(g, rows, c, n).Ok? <==>
              (n - 1, c) in g && (g[(n - 1, c)].rowIndex == n - 1 ==> ValidCell(rows, n - 1, g[(n - 1, c)].cellIndex))
    ensures RemoveColCells(g, rows, c, n).Ok? ==>
              var rows' := RemoveColCells(g, rows, c, n).value;
              && |rows'| == |rows|
              && forall i :: 0 <= i < |rows| ==>
                   rows'[i] == if RemovesFrom(g, c, n, i)
                               then assert ValidCell(rows, i, g[(i, c)].cellIndex);
                                    rows[i][..g[(i, c)].cellIndex] + rows[i][g[(i, c)].cellIndex + 1..]
                               else rows[i]
  {
    if n - 1 < |rows| {
      assert !RemovesFrom(g, c, n - 1, n - 1);
      assert acc[n - 1] == rows[n - 1];
    }
  }

  /** `removeCol` (as intended) refuses the last column and any column crossed by a wider cell. */
  lemma RemoveColFails(t: TableValue, c: int)
    ensures |t.data.cols| == 1 ==> RemoveColSpec(t, c) == Err(LastCol)
    ensures RemoveColSpec(t, c).Ok? <==>
              && |t.data.cols| != 1
              && forall i :: 0 <= i < |t.data.rows| ==> (i, c) in CellMap(t.rows) && CellMap(t.rows)[(i, c)].colSpan <= 1
  {
    var g := CellMap(t.rows);
    CellMapFacts(t.rows);
    RemoveColCheckMeaning(g, c, |t.data.rows|);
    RemoveColCellsMeaning(g, t.rows, c, |t.data.rows|);
  }

  /**
   * After a successful `removeCol` (as intended) each row loses precisely the
   * cell whose rectangle covers the column when that cell starts in the row,
   * the column's width goes, and the width is the sum of the rest.
   */
  lemma RemoveColResult(t: TableValue, c: int)
    ensures RemoveColSpec(t, c).Ok? ==>
              var g := CellMap(t.rows);
              var t' := RemoveColSpec(t, c).value;
              && |t'.rows| == |t.rows|
              && (forall i :: 0 <= i < |t.rows| ==>
                    if RemovesFrom(g, c, |t.data.rows|, i)
                    then InFootprint(g[(i, c)], (i, c)) && g[(i, c)].colSpan == 1 && ValidCell(t.rows, i, g[(i, c)].cellIndex)
                         && t'.rows[i] == t.rows[i][..g[(i, c)].cellIndex] + t.rows[i][g[(i, c)].cellIndex + 1..]
                    else t'.rows[i] == t.rows[i])
              && t'.data.rows == t.data.rows
              && (0 <= c < |t.data.cols| ==> (t'.data.cols == t.data.cols[..c] + t.data.cols[c + 1..]
                                               && t'.data.width == Sum(t.data.cols) - t.data.cols[c]))
  {
    if RemoveColSpec(t, c).Ok? {
      RemoveColRows(t, c);
      if 0 <= c < |t.data.cols| {
        SumRemove(t.data.cols, c);
      }
    }
  }

  /** The rows after a successful corrected `removeCol`. */
  lemma RemoveColRows(t: TableValue, c: int)
    requires RemoveColSpec(t, c).Ok?
    ensures var g := CellMap(t.rows);
            var t' := RemoveColSpec(t, c).value;
            && |t'.rows| == |t.rows|
            && (forall i :: 0 <= i < |t.rows| ==>
                  if RemovesFrom(g, c, |t.data.rows|, i)
                  then InFootprint(g[(i, c)], (i, c)) && g[(i, c)].colSpan == 1 && ValidCell(t.rows, i, g[(i, c)].cellIndex)
                       && t'.rows[i] == t.rows[i][..g[(i, c)].cellIndex] + t.rows[i][g[(i, c)].cellIndex + 1..]
                  else t'.rows[i] == t.rows[i])
  {
    var g := CellMap(t.rows);
    RemoveColCheckMeaning(g, c, |t.data.rows|);
    RemoveColCellsMeaning(g, t.rows, c, |t.data.rows|);
    forall i | 0 <= i < |t.rows| && RemovesFrom(g, c, |t.data.rows|, i)
      ensures InFootprint(g[(i, c)], (i, c))
    {
      FootprintAt(t.rows, (i, c));
    }
  }

  /**
   * The removal loop as written succeeds iff every key it reads exists and
   * every row `i` still has a child at `cells[i,c].cellIndex`; it then
   * deletes exactly that child from each of the first `n` rows.  A missing
   * key gives `MissingCell`; otherwise an unresolvable path gives `BadPath`.
   */
  /** Whether the as-written removal loop finds a child of row `i` to delete. */
  predicate Resolves(g: Grid, rows: Rows, c: int, i: int)
  {
    (i, c) in g && ValidCell(rows, i, g[(i, c)].cellIndex)
  }

  lemma {:induction false} RemoveColCellsAsWrittenMeaning(g: Grid, rows: Rows, c: int, n: nat)
    ensures RemoveColCellsAsWritten(g, rows, c, n).Ok? <==> forall i :: 0 <= i < n ==> Resolves(g, rows, c, i)
    ensures RemoveColCellsAsWritten(g, rows, c, n) == Err(MissingCell) ==> exists i :: 0 <= i < n && (i, c) !in g
    ensures RemoveColCellsAsWritten(g, rows, c, n).Err? ==> RemoveColCellsAsWritten(g, rows, c, n).error in {MissingCell, BadPath}
    ensures RemoveColCellsAsWritten(g, rows, c, n).Ok? ==>
              var rows' := RemoveColCellsAsWritten(g, rows, c, n).value;
              && |rows'| == |rows|
              && forall i :: 0 <= i < |rows| ==>
                   rows'[i] == if i < n
                               then assert Resolves(g, rows, c, i);
                                    rows[i][..g[(i, c)].cellIndex] + rows[i][g[(i, c)].cellIndex + 1..]
                               else rows[i]
  {
    if n > 0 {
      RemoveColCellsAsWrittenMeaning(g, rows, c, n - 1);
      var prev := RemoveColCellsAsWritten(g, rows, c, n - 1);
      if prev.Ok? {
        RemoveColCellsAsWrittenStep(g, rows, c, n, prev.value);
      }
    }
  }

  /** The as-written loop's body for row `n - 1`: that row is still the original one. */
  lemma RemoveColCellsAsWrittenStep(g: Grid, rows: Rows, c: int, n: nat, acc: Rows)
    requires n > 0 && RemoveColCellsAsWritten(g, rows, c, n - 1) == Ok(acc)
    requires forall i :: 0 <= i < n - 1 ==> Resolves(g, rows, c, i)
    requires |acc| == |rows|
    requires forall i :: 0 <= i < |rows| ==>
               acc[i] == if i < n - 1
                         then assert Resolves(g, rows, c, i);
                              rows[i][..g[(i, c)].cellIndex] + rows[i][g[(i, c)].cellIndex + 1..]
                         else rows[i]
    ensures RemoveColCellsAsWritten(g, rows, c, n).Ok? <==> Resolves(g, rows, c, n - 1)
    ensures RemoveColCellsAsWritten(g, rows, c, n) == Err(MissingCell) ==> (n - 1, c) !in g
    ensures RemoveColCellsAsWritten(g, rows, c, n).Err? ==> RemoveColCellsAsWritten(g, rows, c, n).error in {MissingCell, BadPath}
    ensures RemoveColCellsAsWritten(g, rows, c, n).Ok? ==>
              var rows' := RemoveColCellsAsWritten(g, rows, c, n).value;
              && |rows'| == |rows|
              && forall i :: 0 <= i < |rows| ==>
                   rows'[i] == if i < n
                               then assert i < n - 1 || i == n - 1; assert Resolves(g, rows, c, i);
                                    rows[i][..g[(i, c)].cellIndex] + rows[i][g[(i, c)].cellIndex + 1..]
                               else rows[i]
  {
    if n - 1 < |rows| {
      assert acc[n - 1] == rows[n - 1];
    }
  }

  /**
   * `removeCol` as written throws for the last column and succeeds exactly
   * when every row has a key for the column whose cell is one column wide
   * and every row still has a child at that cell's index.  When the check
   * passes but some row has no child there, it throws on the path.
   */
  lemma RemoveColAsWrittenFails(t: TableValue, c: int)
    ensures |t.data.cols| == 1 ==> RemoveColSpecAsWritten(t, c) == Err(LastCol)
    ensures RemoveColSpecAsWritten(t, c).Ok? <==>
              && |t.data.cols| != 1
              && RemoveColCheck(CellMap(t.rows), c, |t.data.rows|).None?
              && forall i :: 0 <= i < |t.data.rows| ==> Resolves(CellMap(t.rows), t.rows, c, i)
    ensures (&& |t.data.cols| != 1
             && RemoveColCheck(CellMap(t.rows), c, |t.data.rows|).None?
             && exists i :: 0 <= i < |t.data.rows| && !Resolves(CellMap(t.rows), t.rows, c, i))
            ==> RemoveColSpecAsWritten(t, c) == Err(BadPath)
  {
    var g := CellMap(t.rows);
    var n := |t.data.rows|;
    RemoveColCheckMeaning(g, c, n);
    RemoveColCellsAsWrittenMeaning(g, t.rows, c, n);
    var rem := RemoveColCellsAsWritten(g, t.rows, c, n);
    assert RemoveColSpecAsWritten(t, c) == RemoveColOutcome(t, c, rem);
  }

  /**
   * After a successful `removeCol` as written, each of the table's rows `i`
   * has lost exactly its child at `cells[i,c].cellIndex`, whichever cell that
   * is; the column's width goes and the total width is the sum of the rest.
   */
  lemma RemoveColAsWrittenResult(t: TableValue, c: int)
    ensures RemoveColSpecAsWritten(t, c).Ok? ==>
              var g := CellMap(t.rows);
              var t' := RemoveColSpecAsWritten(t, c).value;
              && |t'.rows| == |t.rows|
              && (forall i :: 0 <= i < |t.rows| ==>
                    if i < |t.data.rows|
                    then Resolves(g, t.rows, c, i)
                         && t'.rows[i] == t.rows[i][..g[(i, c)].cellIndex] + t.rows[i][g[(i, c)].cellIndex + 1..]
                    else t'.rows[i] == t.rows[i])
              && t'.data.rows == t.data.rows
              && (0 <= c < |t.data.cols| ==> (t'.data.cols == t.data.cols[..c] + t.data.cols[c + 1..]
                                               && t'.data.width == Sum(t.data.cols) - t.data.cols[c]))
  {
    if RemoveColSpecAsWritten(t, c).Ok? {
      var g := CellMap(t.rows);
      var n := |t.data.rows|;
      var rem := RemoveColCellsAsWritten(g, t.rows, c, n);
      assert RemoveColSpecAsWritten(t, c) == RemoveColOutcome(t, c, rem);
      RemoveColCellsAsWrittenMeaning(g, t.rows, c, n);
      if 0 <= c < |t.data.cols| {
        SumRemove(t.data.cols, c);
      }
    }
  }

  /**
   * Where no cell of the column reaches down from an earlier row, the
   * removal loop as written and as intended do the same thing.
   */
  lemma {:induction false} RemoveColLoopsAgree(g: Grid, rows: Rows, c: int, n: nat)
    requires forall i :: 0 <= i < n && (i, c) in g ==> g[(i, c)].rowIndex == i
    ensures RemoveColCellsAsWritten(g, rows, c, n) == RemoveColCells(g, rows, c, n)
  {
    if n > 0 {
      RemoveColLoopsAgree(g, rows, c, n - 1);
    }
  }

  // The example table
  //   | A (2 rows) | B |
  //   |            | C |
  const CellA := Cell(2, 0, [Text("a", map[])])
  const CellB := Cell(0, 0, [Text("b", map[])])
  const CellC := Cell(0, 0, [Text("c", map[])])
  const ExampleRows: Rows := [[CellA, CellB], [CellC]]
  const ExampleTable := TableValue(ExampleRows, TableData(200, [100, 100], [32, 32]))

  /** The grid of the example: A covers (0,0) and (1,0), B is at (0,1), C at (1,1). */
  const ExampleGrid: Grid :=
    map[(0, 0) := Desc(0, 0, 0, 2, 1), (1, 0) := Desc(0, 0, 0, 2, 1), (0, 1) := Desc(0, 1, 1, 1, 1), (1, 1) := Desc(1, 1, 0, 1, 1)]

  lemma ExampleCellA()
    ensures ScanRow(map[], 0, ExampleRows[0], 1) == Cursor(map[(0, 0) := Desc(0, 0, 0, 2, 1), (1, 0) := Desc(0, 0, 0, 2, 1)], 1)
  {
    var m0: Grid := map[];
    var da := Desc(0, 0, 0, 2, 1);
    assert Skip(m0, 0, 0) == 0;
    assert Placed(Cursor(m0, 0), 0, 0, CellA) == da;
    assert FillRow(m0, da, 0, 1) == m0[(0, 0) := da];
    assert FillRows(m0, da, 1) == m0[(0, 0) := da];
    assert FillRows(m0, da, 2) == m0[(0, 0) := da][(1, 0) := da];
  }

  lemma ExampleFirstRow()
    ensures ScanRows(ExampleRows, 1) == ExampleGrid - {(1, 1)}
  {
    var m0: Grid := map[];
    var da := Desc(0, 0, 0, 2, 1);
    var db := Desc(0, 1, 1, 1, 1);
    var g1 := map[(0, 0) := da, (1, 0) := da];
    ExampleCellA();
    assert Skip(g1, 0, 1) == 1;
    assert Placed(Cursor(g1, 1), 0, 1, CellB) == db;
    var g2 := g1[(0, 1) := db];
    assert FillRow(g1, db, 0, 1) == g2;
    assert FillRows(g1, db, 1) == g2;
    assert ScanRow(m0, 0, ExampleRows[0], 2) == Cursor(g2, 2);
    assert g2 == ExampleGrid - {(1, 1)};
  }

  lemma ExampleGridFacts()
    ensures CellMap(ExampleRows) == ExampleGrid
  {
    ExampleFirstRow();
    var g2 := ExampleGrid - {(1, 1)};
    var dc := Desc(1, 1, 0, 1, 1);
    assert Skip(g2, 1, 1) == 1;
    assert Skip(g2, 1, 0) == 1;
    assert Placed(Cursor(g2, 0), 1, 0, CellC) == dc;
    var g3 := g2[(1, 1) := dc];
    assert FillRow(g2, dc, 1, 1) == g3;
    assert FillRows(g2, dc, 1) == g3;
    assert ScanRow(g2, 1, ExampleRows[1], 1) == Cursor(g3, 2);
    assert ScanRows(ExampleRows, 2) == g3;
    assert g3 == ExampleGrid;
  }

  /**
   * The removal loop as written: removing column 0 deletes A from row 0 and
   * then, since row 1's entry for column 0 is A with cell index 0, deletes C
   * from row 1 although C lies in column 1.
   */
  lemma RemoveColAsWrittenDropsOtherCell()
    ensures (1, 1) in CellMap(ExampleRows) && CellMap(ExampleRows)[(1, 1)] == Desc(1, 1, 0, 1, 1)
    ensures RemoveColSpecAsWritten(ExampleTable, 0) == Ok(TableValue([[CellB], []], TableData(100, [100], [32, 32])))
  {
    var rows := ExampleRows;
    var g := ExampleGrid;
    ExampleGridFacts();
    assert RemoveColCheck(g, 0, 2) == None;
    assert RemoveColCellsAsWritten(g, rows, 0, 1) == Ok([[CellB], [CellC]]) by {
      assert rows[0][..0] + rows[0][1..] == [CellB];
      assert rows[0 := [CellB]] == [[CellB], [CellC]];
    }
    assert RemoveColCellsAsWritten(g, rows, 0, 2) == Ok([[CellB], []]) by {
      assert [CellC][..0] + [CellC][1..] == [];
      assert [[CellB], [CellC]][1 := []] == [[CellB], []];
    }
    assert SpliceRemove([100, 100], 0) == [100];
    assert Sum([100]) == 100;
  }

  /** The intended loop on the same table keeps C: the result is | B | over | C |. */
  lemma RemoveColKeepsOtherCell()
    ensures RemoveColSpec(ExampleTable, 0) == Ok(TableValue([[CellB], [CellC]], TableData(100, [100], [32, 32])))
  {
    var rows := ExampleRows;
    var g := ExampleGrid;
    ExampleGridFacts();
    assert RemoveColCheck(g, 0, 2) == None;
    assert RemoveColCells(g, rows, 0, 1) == Ok([[CellB], [CellC]]) by {
      assert rows[0][..0] + rows[0][1..] == [CellB];
      assert rows[0 := [CellB]] == [[CellB], [CellC]];
    }
    assert RemoveColCells(g, rows, 0, 2) == Ok([[CellB], [CellC]]);
    assert SpliceRemove([100, 100], 0) == [100];
    assert Sum([100]) == 100;
  }
}

module TableFactsInsert {
  import opened Wrappers
  import opened Document
  import opened TableGrid
  import opened TableEditor
  import opened TableFacts

  // ---------------------------------------------------------------------
  // insertRow
  // ---------------------------------------------------------------------

  /** A cell as it was, or with its (defaulted) row span grown by one. */
  predicate SameOrTaller(c': Cell, c: Cell)
  {
    c' == c || c' == c.(rowSpan := EffSpan(c.rowSpan) + 1)
  }

  /** Every cell of `rows'` is the cell at the same place in `rows`, perhaps taller. */
  predicate GrownRows(rows': Rows, rows: Rows)
  {
    && |rows'| == |rows|
    && (forall i :: 0 <= i < |rows| ==> |rows'[i]| == |rows[i]|)
    && (forall i, k :: 0 <= i < |rows| && 0 <= k < |rows[i]| ==> SameOrTaller(rows'[i][k], rows[i][k]))
  }

  /** The columns among the first `n` whose covering cell gets a new cell in the inserted row. */
  function InsertingColumns(g: Grid, r: int, above: bool, n: nat): set<int>
  {
    set j | 0 <= j < n && (r, j) in g && RowInserts(g[(r, j)], r, above)
  }

  /** Every covering cell among the first `n` columns that reaches across the new row is one row taller in `rows'`. */
  predicate GrownCovering(g: Grid, r: int, above: bool, n: nat, rows': Rows, rows: Rows)
  {
    forall j :: 0 <= j < n && (r, j) in g && !RowInserts(g[(r, j)], r, above) ==>
      var d := g[(r, j)];
      && ValidCell(rows, d.rowIndex, d.cellIndex) && ValidCell(rows', d.rowIndex, d.cellIndex)
      && rows'[d.rowIndex][d.cellIndex] == rows[d.rowIndex][d.cellIndex].(rowSpan := d.rowSpan + 1)
  }

  /** Growing the cell of a descriptor of the table keeps every cell the same or taller and grows that one. */
  lemma GrowKeeps(rows': Rows, rows: Rows, d: Desc)
    requires GrownRows(rows', rows) && DescOf(rows, d)
    ensures var c := rows'[d.rowIndex][d.cellIndex];
            var rows'' := rows'[d.rowIndex := rows'[d.rowIndex][d.cellIndex := c.(rowSpan := d.rowSpan + 1)]];
            && GrownRows(rows'', rows)
            && rows''[d.rowIndex][d.cellIndex] == rows[d.rowIndex][d.cellIndex].(rowSpan := d.rowSpan + 1)
            && forall i, k :: 0 <= i < |rows| && 0 <= k < |rows[i]| && (i != d.rowIndex || k != d.cellIndex) ==> rows''[i][k] == rows'[i][k]
  {
  }

  /**
   * On the grid of the table, the column loop of `insertRow` fails only on a
   * missing key.
   */
  lemma {:induction false} InsertRowScanOk(g: Grid, rows: Rows, r: int, above: bool, n: nat)
    requires forall key :: key in g ==> DescOf(rows, g[key])
    ensures InsertRowScan(g, rows, r, above, n).Ok? <==> forall j :: 0 <= j < n ==> (r, j) in g
    ensures InsertRowScan(g, rows, r, above, n).Ok? ==> GrownRows(InsertRowScan(g, rows, r, above, n).value.0, rows)
  {
    if n > 0 {
      InsertRowScanOk(g, rows, r, above, n - 1);
      var prev := InsertRowScan(g, rows, r, above, n - 1);
      if prev.Ok? && (r, n - 1) in g && !RowInserts(g[(r, n - 1)], r, above) {
        GrowKeeps(prev.value.0, rows, g[(r, n - 1)]);
      }
    }
  }

  /** The new row holds one empty cell per column whose covering cell does not reach across it. */
  lemma {:induction false} InsertRowScanRow(g: Grid, rows: Rows, r: int, above: bool, n: nat)
    ensures InsertRowScan(g, rows, r, above, n).Ok? ==>
              InsertRowScan(g, rows, r, above, n).value.1 == EmptyRow(|InsertingColumns(g, r, above, n)|)
  {
    if n > 0 {
      InsertRowScanRow(g, rows, r, above, n - 1);
      var prev := InsertingColumns(g, r, above, n - 1);
      if (r, n - 1) in g && RowInserts(g[(r, n - 1)], r, above) {
        assert InsertingColumns(g, r, above, n) == prev + {n - 1};
      } else {
        assert InsertingColumns(g, r, above, n) == prev;
      }
    } else {
      assert InsertingColumns(g, r, above, n) == {};
    }
  }

  /**
   * Every other covering cell grows by one row, once, however many columns it
   * covers: a second visit sets the same span again.
   */
  lemma {:induction false} InsertRowScanGrows(g: Grid, rows: Rows, r: int, above: bool, n: nat)
    requires forall key :: key in g ==> DescOf(rows, g[key])
    ensures InsertRowScan(g, rows, r, above, n).Ok? ==>
              GrownCovering(g, r, above, n, InsertRowScan(g, rows, r, above, n).value.0, rows)
  {
    if n > 0 {
      InsertRowScanOk(g, rows, r, above, n - 1);
      InsertRowScanGrows(g, rows, r, above, n - 1);
      var prev := InsertRowScan(g, rows, r, above, n - 1);
      if prev.Ok? && (r, n - 1) in g && !RowInserts(g[(r, n - 1)], r, above)
         && ValidCell(prev.value.0, g[(r, n - 1)].rowIndex, g[(r, n - 1)].cellIndex) {
        GrowCoveringStep(g, r, above, n, prev.value.0, rows);
      }
    }
  }

  /** Growing the covering cell of column `n - 1` extends `GrownCovering` to the first `n` columns. */
  lemma GrowCoveringStep(g: Grid, r: int, above: bool, n: nat, acc: Rows, rows: Rows)
    requires forall key :: key in g ==> DescOf(rows, g[key])
    requires n > 0 && (r, n - 1) in g && !RowInserts(g[(r, n - 1)], r, above)
    requires GrownRows(acc, rows) && GrownCovering(g, r, above, n - 1, acc, rows)
    requires ValidCell(acc, g[(r, n - 1)].rowIndex, g[(r, n - 1)].cellIndex)
    ensures var d := g[(r, n - 1)];
            var c := acc[d.rowIndex][d.cellIndex];
            GrownCovering(g, r, above, n, acc[d.rowIndex := acc[d.rowIndex][d.cellIndex := c.(rowSpan := d.rowSpan + 1)]], rows)
  {
    var d := g[(r, n - 1)];
    assert DescOf(rows, d);
    GrowKeeps(acc, rows, d);
  }

  lemma {:induction false} GrownRowsCount(rows': Rows, rows: Rows)
    requires |rows'| == |rows| && forall i :: 0 <= i < |rows| ==> |rows'[i]| == |rows[i]|
    ensures TotalCells(rows') == TotalCells(rows)
    decreases |rows|
  {
    if |rows| > 0 {
      var n := |rows| - 1;
      GrownRowsCount(rows'[..n], rows[..n]);
    }
  }

  /**
   * `insertRow` fails only on a missing key or a position outside the table;
   * otherwise the new row of empty cells goes at `rowIndex` (above) or after
   * it (below), the rows before and after it are the old ones with some cells
   * taller, and a height of 32 is spliced in at the same position.
   */
  lemma InsertRowEffect(t: TableValue, r: int, above: bool)
    ensures InsertRowSpec(t, r, above).Ok? <==>
              && (forall j :: 0 <= j < |t.data.cols| ==> (r, j) in CellMap(t.rows))
              && 0 <= NewRowIndex(r, above) <= |t.rows|
    ensures InsertRowSpec(t, r, above).Ok? ==>
              var t' := InsertRowSpec(t, r, above).value;
              var at := NewRowIndex(r, above);
              var n := |InsertingColumns(CellMap(t.rows), r, above, |t.data.cols|)|;
              && |t'.rows| == |t.rows| + 1
              && t'.rows[at] == EmptyRow(n)
              && GrownRows(t'.rows[..at] + t'.rows[at + 1..], t.rows)
              && GrownCovering(CellMap(t.rows), r, above, |t.data.cols|, t'.rows[..at] + t'.rows[at + 1..], t.rows)
              && TotalCells(t'.rows) == TotalCells(t.rows) + n
              && t'.data.cols == t.data.cols && t'.data.width == t.data.width
              && (at <= |t.data.rows| ==> t'.data.rows == t.data.rows[..at] + [DefaultRowHeight] + t.data.rows[at..])
  {
    var g := CellMap(t.rows);
    CellMapFacts(t.rows);
    InsertRowScanOk(g, t.rows, r, above, |t.data.cols|);
    InsertRowScanRow(g, t.rows, r, above, |t.data.cols|);
    InsertRowScanGrows(g, t.rows, r, above, |t.data.cols|);
    if InsertRowSpec(t, r, above).Ok? {
      var rows', row := InsertRowScan(g, t.rows, r, above, |t.data.cols|).value.0, InsertRowScan(g, t.rows, r, above, |t.data.cols|).value.1;
      InsertRowPlaced(rows', row, NewRowIndex(r, above));
      GrownRowsCount(rows', t.rows);
    }
  }

  /** The new row spliced in at `at`: the other rows are the old ones, and its cells are added to the count. */
  lemma InsertRowPlaced(rows: Rows, row: seq<Cell>, at: int)
    requires 0 <= at <= |rows|
    ensures var x := rows[..at] + [row] + rows[at..];
            && |x| == |rows| + 1 && x[at] == row && x[..at] + x[at + 1..] == rows
            && TotalCells(x) == TotalCells(rows) + |row|
  {
    var x := rows[..at] + [row] + rows[at..];
    assert x[..at] == rows[..at];
    assert x[at + 1..] == rows[at..];
    assert rows[..at] + rows[at..] == rows;
    TotalCellsInsert(rows, at, row);
  }

  // ---------------------------------------------------------------------
  // insertCol
  // ---------------------------------------------------------------------

  /** Where the new cell of row `i` goes fits in that row. */
  predicate ColInsertFits(g: Grid, rows: Rows, c: int, left: bool, i: int)
  {
    match CountStarting(g, i, c)
    case None => false
    case Some(k) => 0 <= i < |rows| && (if left then k else k + 1) <= |rows[i]|
  }

  /** Whether the loop over the first `n` rows gives row `i` a new cell. */
  predicate RowGetsCell(g: Grid, c: int, left: bool, n: nat, i: int)
  {
    0 <= i < n && (i, c) in g && ColInserts(g[(i, c)], c, left)
  }

  /**
   * On the grid of the table, the row loop of `insertCol` fails only on a
   * missing key or an insert position past the end of the row; otherwise a
   * row whose covering cell does not reach across the new column gains
   * exactly one cell and every other row keeps its length.
   */
  lemma {:induction false} InsertColScanMeaning(g: Grid, rows: Rows, c: int, left: bool, n: nat)
    requires forall key :: key in g ==> DescOf(rows, g[key])
    ensures InsertColScan(g, rows, c, left, n).Ok? <==> forall i :: 0 <= i < n ==> RowFits(g, rows, c, left, i)
    ensures InsertColScan(g, rows, c, left, n).Ok? ==> ColLengths(g, c, left, n, InsertColScan(g, rows, c, left, n).value, rows)
  {
    if n > 0 {
      InsertColScanMeaning(g, rows, c, left, n - 1);
      var prev := InsertColScan(g, rows, c, left, n - 1);
      if prev.Ok? {
        InsertColStep(g, rows, c, left, n - 1, prev.value);
      } else {
        assert !RowFits(g, rows, c, left, n - 1) || exists i :: 0 <= i < n - 1 && !RowFits(g, rows, c, left, i);
      }
    }
  }

  /** Row `i` has a key for the column and, when it gets a new cell, room for it. */
  predicate RowFits(g: Grid, rows: Rows, c: int, left: bool, i: int)
  {
    (i, c) in g && (ColInserts(g[(i, c)], c, left) ==> ColInsertFits(g, rows, c, left, i))
  }

  /** Row lengths after the loop over the first `n` rows. */
  predicate ColLengths(g: Grid, c: int, left: bool, n: nat, rows': Rows, rows: Rows)
  {
    && |rows'| == |rows|
    && forall i :: 0 <= i < |rows| ==> |rows'[i]| == |rows[i]| + (if RowGetsCell(g, c, left, n, i) then 1 else 0)
  }

  /** One iteration for row `i`, from the lengths after `i` rows to those after `i + 1`. */
  lemma InsertColStep(g: Grid, rows: Rows, c: int, left: bool, i: nat, acc: Rows)
    requires forall key :: key in g ==> DescOf(rows, g[key])
    requires ColLengths(g, c, left, i, acc, rows)
    requires InsertColScan(g, rows, c, left, i) == Ok(acc)
    ensures InsertColScan(g, rows, c, left, i + 1).Ok? <==> RowFits(g, rows, c, left, i)
    ensures InsertColScan(g, rows, c, left, i + 1).Ok? ==> ColLengths(g, c, left, i + 1, InsertColScan(g, rows, c, left, i + 1).value, rows)
  {
    if (i, c) in g {
      var d := g[(i, c)];
      assert DescOf(rows, d);
      if ColInserts(d, c, left) {
        assert i < |rows| ==> |acc[i]| == |rows[i]|;
      }
    }
  }

  /**
   * Row `i` after the loop over the first `n` rows: the new empty cell at the
   * index `getCellIndex` gives (one further on the right), or, when the
   * row's covering cell starts in this row and reaches across the new
   * column, that cell one column wider; any other row is as it was.
   */
  predicate ColumnAdded(g: Grid, c: int, left: bool, n: nat, rows': Rows, rows: Rows, i: int)
    requires 0 <= i < |rows| && |rows'| == |rows|
  {
    if RowGetsCell(g, c, left, n, i) then
      && CountStarting(g, i, c).Some?
      && var p := if left then CountStarting(g, i, c).value else CountStarting(g, i, c).value + 1;
         p <= |rows[i]| && rows'[i] == rows[i][..p] + [EmptyCell] + rows[i][p..]
    else if i < n && (i, c) in g && g[(i, c)].rowIndex == i then
      var d := g[(i, c)];
      0 <= d.cellIndex < |rows[i]| && rows'[i] == rows[i][d.cellIndex := rows[i][d.cellIndex].(colSpan := d.colSpan + 1)]
    else
      rows'[i] == rows[i]
  }

  predicate ColumnsAdded(g: Grid, c: int, left: bool, n: nat, rows': Rows, rows: Rows)
  {
    |rows'| == |rows| && forall i :: 0 <= i < |rows| ==> ColumnAdded(g, c, left, n, rows', rows, i)
  }

  /**
   * One row of the loop.  A row that reaches across the new column widens
   * the cell covering it in the row where that cell starts; that row met the
   * same cell, so it gained no cell and its cell is already one wider, and
   * setting the same span again changes nothing.
   */
  lemma InsertColRowAdds(g: Grid, rows: Rows, c: int, left: bool, m: nat, acc: Rows)
    requires OriginRows(g) && forall key :: key in g ==> InFootprint(g[key], key) && DescOf(rows, g[key])
    requires ColumnsAdded(g, c, left, m, acc, rows)
    requires InsertColRow(g, acc, c, left, m).Ok?
    ensures ColumnsAdded(g, c, left, m + 1, InsertColRow(g, acc, c, left, m).value, rows)
  {
    var d := g[(m, c)];
    var acc' := InsertColRow(g, acc, c, left, m).value;
    assert DescOf(rows, d) && InFootprint(d, (m, c));
    if m < |rows| {
      assert ColumnAdded(g, c, left, m, acc, rows, m);
    }
    if !ColInserts(d, c, left) {
      var o := (d.rowIndex, c);
      assert o in g && g[o] == d;
      assert ColumnAdded(g, c, left, m, acc, rows, d.rowIndex);
    }
    var m' := m + 1;
    forall i | 0 <= i < |rows| ensures ColumnAdded(g, c, left, m', acc', rows, i) {
      assert ColumnAdded(g, c, left, m, acc, rows, i);
    }
  }

  lemma {:induction false} InsertColScanAdds(g: Grid, rows: Rows, c: int, left: bool, n: nat)
    requires OriginRows(g) && forall key :: key in g ==> InFootprint(g[key], key) && DescOf(rows, g[key])
    ensures InsertColScan(g, rows, c, left, n).Ok? ==> ColumnsAdded(g, c, left, n, InsertColScan(g, rows, c, left, n).value, rows)
  {
    if n == 0 {
      assert forall i :: 0 <= i < |rows| ==> ColumnAdded(g, c, left, 0, rows, rows, i);
    } else {
      InsertColScanAdds(g, rows, c, left, n - 1);
      var prev := InsertColScan(g, rows, c, left, n - 1);
      if prev.Ok? && InsertColRow(g, prev.value, c, left, n - 1).Ok? {
        InsertColRowAdds(g, rows, c, left, n - 1, prev.value);
      }
    }
  }

  /**
   * `insertCol` fails only on a missing key or an insert index past the end
   * of a row (the index as written overcounts wide cells, so this happens).
   * Otherwise, on a table without negative spans, every row gets its new
   * empty cell at the index `getCellIndex` gives, or has the cell that
   * reaches across the new column one column wider, or stays as it was;
   * a width of 100 is spliced into the column widths at `colIndex`, adding
   * 100 to the table's width, and the row heights stay.
   */
  lemma InsertColEffect(t: TableValue, c: int, left: bool)
    ensures InsertColSpec(t, c, left).Ok? <==>
              forall i :: 0 <= i < |t.data.rows| ==> RowFits(CellMap(t.rows), t.rows, c, left, i)
    ensures InsertColSpec(t, c, left).Ok? ==>
              var t' := InsertColSpec(t, c, left).value;
              && |t'.rows| == |t.rows|
              && (forall i :: 0 <= i < |t.rows| ==>
                    |t'.rows[i]| == |t.rows[i]| + (if RowGetsCell(CellMap(t.rows), c, left, |t.data.rows|, i) then 1 else 0))
              && (NoNegativeSpans(t.rows) ==> ColumnsAdded(CellMap(t.rows), c, left, |t.data.rows|, t'.rows, t.rows))
              && |t'.data.cols| == |t.data.cols| + 1
              && t'.data.cols[SpliceStart(|t.data.cols|, c)] == DefaultCellWidth
              && t'.data.width == t.data.width + DefaultCellWidth
              && t'.data.rows == t.data.rows
  {
    CellMapFacts(t.rows);
    InsertColScanMeaning(CellMap(t.rows), t.rows, c, left, |t.data.rows|);
    if NoNegativeSpans(t.rows) {
      CellMapOrigins(t.rows);
      InsertColScanAdds(CellMap(t.rows), t.rows, c, left, |t.data.rows|);
    }
  }

  // ---------------------------------------------------------------------
  // appendCol
  // ---------------------------------------------------------------------

  /**
   * `appendCol` reads `table.children[i]` for every row height, so it throws
   * when there are more heights than rows; otherwise each of those rows ends
   * with a new empty cell and a width of 100 is appended.
   */
  lemma AppendColEffect(t: TableValue)
    ensures AppendColSpec(t).Err? <==> |t.data.rows| > |t.rows|
    ensures AppendColSpec(t).Ok? ==>
              var t' := AppendColSpec(t).value;
              && |t'.rows| == |t.rows|
              && (forall i :: 0 <= i < |t.data.rows| ==> t'.rows[i][..|t.rows[i]|] == t.rows[i] && t'.rows[i][|t.rows[i]|] == EmptyCell)
              && (forall i :: |t.data.rows| <= i < |t.rows| ==> t'.rows[i] == t.rows[i])
              && t'.data.cols == t.data.cols + [DefaultCellWidth]
              && t'.data.width == t.data.width + DefaultCellWidth
              && t'.data.rows == t.data.rows
  {
  }
}

module TableFactsMerge {
  import opened Wrappers
  import opened Document
  import opened TableGrid
  import opened TableEditor
  import opened TableFacts

  // ---------------------------------------------------------------------
  // mergeCells
  // ---------------------------------------------------------------------

  /** (a, b) comes before (i, j) in row-major order. */
  predicate LexBefore(a: int, b: int, i: int, j: int)
  {
    a < i || (a == i && b < j)
  }

  /** The merged cells are in strictly increasing row-major order of their origins. */
  predicate RowMajor(merged: seq<Desc>)
  {
    forall a, b :: 0 <= a < b < |merged| ==>
      LexBefore(merged[a].rowIndex, merged[a].colIndex, merged[b].rowIndex, merged[b].colIndex)
  }

  predicate AllBefore(merged: seq<Desc>, i: int, j: int)
  {
    forall x :: x in merged ==> LexBefore(x.rowIndex, x.colIndex, i, j)
  }

  /** `d` is a cell other than the top-left one, described at its own origin. */
  predicate Picked(g: Grid, lt: Desc, d: Desc)
  {
    d != lt && (d.rowIndex, d.colIndex) in g && g[(d.rowIndex, d.colIndex)] == d
  }

  /** Every position of the selection has a cell, and that cell lies inside the selection. */
  predicate AllContained(g: Grid, sel: SelectedCells, rowsDone: nat)
  {
    forall i, j :: sel.row1 <= i < sel.row1 + rowsDone && sel.col1 <= j <= sel.col2 ==>
      (i, j) in g && Contained(g[(i, j)], sel)
  }

  /**
   * The inner loop over row `i`: it throws iff a position has no cell or a
   * cell sticking out of the selection; it appends the cells that start in
   * this row of the selection, in column order.
   */
  lemma {:induction false} MergeScanRowMeaning(plan: MergePlan, g: Grid, sel: SelectedCells, lt: Desc, i: int, n: nat)
    requires RowMajor(plan.merged) && AllBefore(plan.merged, i, sel.col1)
    ensures MergeScanRow(plan, g, sel, lt, i, n).Ok? <==>
              forall j :: sel.col1 <= j < sel.col1 + n ==> (i, j) in g && Contained(g[(i, j)], sel)
    ensures MergeScanRow(plan, g, sel, lt, i, n).Ok? ==>
              var p := MergeScanRow(plan, g, sel, lt, i, n).value;
              && RowMajor(p.merged) && AllBefore(p.merged, i, sel.col1 + n)
              && forall d :: d in p.merged <==>
                   d in plan.merged || (Picked(g, lt, d) && d.rowIndex == i && sel.col1 <= d.colIndex < sel.col1 + n)
  {
    if n > 0 {
      MergeScanRowMeaning(plan, g, sel, lt, i, n - 1);
    }
  }

  /**
   * The whole scan throws iff some position of the selection has no cell or
   * a cell sticking out of it; otherwise it lists, once each and in
   * row-major order, exactly the cells other than the top-left one that
   * start inside the selection.
   */
  lemma {:induction false} MergeScanMeaning(g: Grid, sel: SelectedCells, lt: Desc, n: nat)
    ensures MergeScan(g, sel, lt, n).Ok? <==> AllContained(g, sel, n)
    ensures MergeScan(g, sel, lt, n).Ok? ==>
              var p := MergeScan(g, sel, lt, n).value;
              && RowMajor(p.merged) && AllBefore(p.merged, sel.row1 + n, sel.col1)
              && forall d :: d in p.merged <==>
                   Picked(g, lt, d) && sel.row1 <= d.rowIndex < sel.row1 + n && sel.col1 <= d.colIndex <= sel.col2
  {
    if n > 0 {
      MergeScanMeaning(g, sel, lt, n - 1);
      var prev := MergeScan(g, sel, lt, n - 1);
      if prev.Ok? {
        ScanStep(g, sel, lt, n, prev.value);
      } else {
        assert !AllContained(g, sel, n - 1);
      }
    }
  }

  /** The plan after the first `n` rows of the selection: what `MergeScanMeaning` promises. */
  ghost predicate ScanSoFar(g: Grid, sel: SelectedCells, lt: Desc, n: nat, p: MergePlan)
  {
    && RowMajor(p.merged) && AllBefore(p.merged, sel.row1 + n, sel.col1)
    && forall d :: d in p.merged <==>
         Picked(g, lt, d) && sel.row1 <= d.rowIndex < sel.row1 + n && sel.col1 <= d.colIndex <= sel.col2
  }

  /** The inner loop over row `n - 1` of the selection carries `ScanSoFar` from `n - 1` rows to `n`. */
  lemma ScanStep(g: Grid, sel: SelectedCells, lt: Desc, n: nat, p: MergePlan)
    requires n > 0 && ScanSoFar(g, sel, lt, n - 1, p) && AllContained(g, sel, n - 1)
    ensures var q := MergeScanRow(p, g, sel, lt, sel.row1 + n - 1, Count(sel.col2 - sel.col1 + 1));
            && (q.Ok? <==> AllContained(g, sel, n))
            && (q.Ok? ==> ScanSoFar(g, sel, lt, n, q.value))
  {
    var i := sel.row1 + n - 1;
    var cnt := Count(sel.col2 - sel.col1 + 1);
    MergeScanRowMeaning(p, g, sel, lt, i, cnt);
  }

  lemma {:induction false} MergeScanRowErrors(plan: MergePlan, g: Grid, sel: SelectedCells, lt: Desc, i: int, n: nat)
    ensures MergeScanRow(plan, g, sel, lt, i, n).Err? ==> MergeScanRow(plan, g, sel, lt, i, n).error in {MissingCell, NotFullySelected}
  {
    if n > 0 {
      MergeScanRowErrors(plan, g, sel, lt, i, n - 1);
    }
  }

  /** The scan throws only "not fully selected" or on a missing key. */
  lemma {:induction false} MergeScanErrors(g: Grid, sel: SelectedCells, lt: Desc, n: nat)
    ensures MergeScan(g, sel, lt, n).Err? ==> MergeScan(g, sel, lt, n).error in {MissingCell, NotFullySelected}
  {
    if n > 0 {
      MergeScanErrors(g, sel, lt, n - 1);
      var prev := MergeScan(g, sel, lt, n - 1);
      if prev.Ok? {
        MergeScanRowErrors(prev.value, g, sel, lt, sel.row1 + n - 1, Count(sel.col2 - sel.col1 + 1));
      }
    }
  }

  /** Moving the contents fails only on a path Slate cannot resolve. */
  lemma {:induction false} MergedContentErrors(rows: Rows, merged: seq<Desc>, n: nat)
    requires n <= |merged|
    ensures MergedContent(rows, merged, n).Err? ==> MergedContent(rows, merged, n).error == BadPath
  {
    if n > 0 {
      MergedContentErrors(rows, merged, n - 1);
    }
  }

  /** `mergeCells` does nothing for a one-position selection or a corner without a cell. */
  lemma MergeNoOp(t: TableValue, sel: SelectedCells)
    ensures sel.row1 == sel.row2 && sel.col1 == sel.col2 ==> MergeSpec(t, sel) == Ok(t)
    ensures (sel.row1, sel.col1) !in CellMap(t.rows) || (sel.row2, sel.col2) !in CellMap(t.rows) ==> MergeSpec(t, sel) == Ok(t)
  {
  }

  /**
   * Otherwise it throws "not fully selected" (or on a missing key) exactly
   * when some position of the selection has no cell or a cell sticking out.
   */
  lemma MergeFails(t: TableValue, sel: SelectedCells)
    ensures !(sel.row1 == sel.row2 && sel.col1 == sel.col2)
            && (sel.row1, sel.col1) in CellMap(t.rows) && (sel.row2, sel.col2) in CellMap(t.rows) ==>
              ((MergeSpec(t, sel) in {Err(MissingCell), Err(NotFullySelected)})
               <==> !AllContained(CellMap(t.rows), sel, Count(sel.row2 - sel.row1 + 1)))
  {
    var g := CellMap(t.rows);
    if !(sel.row1 == sel.row2 && sel.col1 == sel.col2) && (sel.row1, sel.col1) in g && (sel.row2, sel.col2) in g {
      var lt := g[(sel.row1, sel.col1)];
      var n := Count(sel.row2 - sel.row1 + 1);
      MergeScanMeaning(g, sel, lt, n);
      MergeScanErrors(g, sel, lt, n);
      if MergeScan(g, sel, lt, n).Ok? {
        MergeApplyResult(t.rows, lt, g[(sel.row2, sel.col2)], MergeScan(g, sel, lt, n).value);
      }
    }
  }

  /**
   * A merge that goes through leaves the data and the row count alone, and
   * makes the top-left cell span the whole selection.
   */
  lemma MergeResult(t: TableValue, sel: SelectedCells)
    ensures MergeSpec(t, sel).Ok? ==> MergeSpec(t, sel).value.data == t.data && |MergeSpec(t, sel).value.rows| == |t.rows|
    ensures MergeSpec(t, sel).Ok? && !(sel.row1 == sel.row2 && sel.col1 == sel.col2)
            && (sel.row1, sel.col1) in CellMap(t.rows) && (sel.row2, sel.col2) in CellMap(t.rows)
            && sel.row1 <= sel.row2 && sel.col1 <= sel.col2 ==>
              var lt := CellMap(t.rows)[(sel.row1, sel.col1)];
              var t' := MergeSpec(t, sel).value;
              && lt.rowIndex == sel.row1 && lt.colIndex == sel.col1
              && ValidCell(t'.rows, lt.rowIndex, lt.cellIndex)
              && t'.rows[lt.rowIndex][lt.cellIndex].rowSpan == sel.row2 - sel.row1 + 1
              && t'.rows[lt.rowIndex][lt.cellIndex].colSpan == sel.col2 - sel.col1 + 1
  {
    var g := CellMap(t.rows);
    if !(sel.row1 == sel.row2 && sel.col1 == sel.col2) && (sel.row1, sel.col1) in g && (sel.row2, sel.col2) in g {
      var lt := g[(sel.row1, sel.col1)];
      var rb := g[(sel.row2, sel.col2)];
      var n := Count(sel.row2 - sel.row1 + 1);
      if MergeScan(g, sel, lt, n).Ok? {
        MergeApplyResult(t.rows, lt, rb, MergeScan(g, sel, lt, n).value);
        if sel.row1 <= sel.row2 && sel.col1 <= sel.col2 {
          MergeScanMeaning(g, sel, lt, n);
          MergeCorners(t.rows, sel);
        }
      }
    }
  }

  /** When the whole selection is contained, its corners are the origin of `lt` and the far corner of `rb`. */
  lemma MergeCorners(rows: Rows, sel: SelectedCells)
    requires sel.row1 <= sel.row2 && sel.col1 <= sel.col2
    requires AllContained(CellMap(rows), sel, Count(sel.row2 - sel.row1 + 1))
    ensures var g := CellMap(rows);
            var lt := g[(sel.row1, sel.col1)];
            var rb := g[(sel.row2, sel.col2)];
            && lt.rowIndex == sel.row1 && lt.colIndex == sel.col1
            && rb.rowIndex + rb.rowSpan - 1 == sel.row2 && rb.colIndex + rb.colSpan - 1 == sel.col2
  {
    var g := CellMap(rows);
    assert (sel.row1, sel.col1) in g && Contained(g[(sel.row1, sel.col1)], sel);
    assert (sel.row2, sel.col2) in g && Contained(g[(sel.row2, sel.col2)], sel);
    CellMapFacts(rows);
    assert InFootprint(g[(sel.row1, sel.col1)], (sel.row1, sel.col1));
    assert InFootprint(g[(sel.row2, sel.col2)], (sel.row2, sel.col2));
  }

  /**
   * After the scan, `mergeCells` throws only on a row it would empty or a
   * path Slate cannot resolve; otherwise the row count stays and the
   * top-left cell spans to the far corner of `rb`.
   */
  lemma MergeApplyResult(rows: Rows, lt: Desc, rb: Desc, plan: MergePlan)
    ensures MergeApply(rows, lt, rb, plan).Err? ==> MergeApply(rows, lt, rb, plan).error in {MergeEmptiesRow, BadPath}
    ensures MergeApply(rows, lt, rb, plan).Ok? ==>
              var r := MergeApply(rows, lt, rb, plan).value;
              && |r| == |rows| && ValidCell(r, lt.rowIndex, lt.cellIndex)
              && r[lt.rowIndex][lt.cellIndex].rowSpan == rb.rowIndex + rb.rowSpan - lt.rowIndex
              && r[lt.rowIndex][lt.cellIndex].colSpan == rb.colIndex + rb.colSpan - lt.colIndex
  {
    MergedContentErrors(rows, plan.merged, |plan.merged|);
  }
}
