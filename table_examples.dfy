/**
 * The table commands of src/lib/editor/helpers/table-editor.ts on small
 * concrete tables.
 */
module TableExamples {
  import opened Wrappers
  import opened Document
  import opened TableGrid
  import opened TableEditor

  // ---------------------------------------------------------------------
  // Inserting below a cell that spans two rows
  // ---------------------------------------------------------------------

  const TallA := Cell(2, 1, [Text("a", map[])])

  lemma TallGrid()
    ensures CellMap([[TallA], []]) == map[(0, 0) := Desc(0, 0, 0, 2, 1), (1, 0) := Desc(0, 0, 0, 2, 1)]
  {
    var rows := [[TallA], []];
    var d := Desc(0, 0, 0, 2, 1);
    var m0: Grid := map[];
    assert Skip(m0, 0, 0) == 0;
    assert Placed(Cursor(m0, 0), 0, 0, TallA) == d;
    assert FillRow(m0, d, 0, 1) == m0[(0, 0) := d];
    assert FillRows(m0, d, 1) == m0[(0, 0) := d];
    assert FillRows(m0, d, 2) == m0[(0, 0) := d][(1, 0) := d];
    var g := m0[(0, 0) := d][(1, 0) := d];
    assert ScanRow(m0, 0, rows[0], 1).grid == g;
    assert ScanRows(rows, 1) == g;
    assert ScanRows(rows, 2) == g;
  }

  /**
   * Inserting a row below row 0 of a one-column table whose only cell spans
   * rows 0 and 1 adds no cell: the tall cell grows to three rows and the new
   * row is empty.
   */
  lemma InsertBelowTallCell()
    ensures InsertRowSpec(TableValue([[TallA], []], TableData(100, [100], [32, 32])), 0, false)
            == Ok(TableValue([[TallA.(rowSpan := 3)], [], []], TableData(100, [100], [32, 32, 32])))
  {
    var rows := [[TallA], []];
    var d := Desc(0, 0, 0, 2, 1);
    TallGrid();
    var g := CellMap(rows);
    var a' := TallA.(rowSpan := 3);
    assert g[(0, 0)] == d;
    assert rows[0][0 := a'] == [a'];
    assert rows[0 := [a']] == [[a'], []];
    assert InsertRowScan(g, rows, 0, false, 1) == Ok(([[a'], []], []));
    var rows' := [[a'], []];
    assert rows'[..1] == [[a']] && rows'[1..] == [[]];
    assert rows'[..1] + [[]] + rows'[1..] == [[a'], [], []];
    assert SpliceInsert([32, 32], 1, 32) == [32, 32, 32];
  }

  // ---------------------------------------------------------------------
  // A row whose first cell is two columns wide
  // ---------------------------------------------------------------------

  const WideX := Cell(0, 2, [Text("x", map[])])
  const CellY := Cell(0, 0, [Text("y", map[])])
  const WideRows: Rows := [[WideX, CellY]]
  const WideGrid: Grid := map[(0, 0) := Desc(0, 0, 0, 1, 2), (0, 1) := Desc(0, 0, 0, 1, 2), (0, 2) := Desc(0, 2, 1, 1, 1)]

  lemma WideGridFacts()
    ensures CellMap(WideRows) == WideGrid
  {
    var m0: Grid := map[];
    var dx := Desc(0, 0, 0, 1, 2);
    var dy := Desc(0, 2, 1, 1, 1);
    assert Skip(m0, 0, 0) == 0;
    assert Placed(Cursor(m0, 0), 0, 0, WideX) == dx;
    assert FillRow(m0, dx, 0, 1) == m0[(0, 0) := dx];
    assert FillRow(m0, dx, 0, 2) == m0[(0, 0) := dx][(0, 1) := dx];
    var g1 := m0[(0, 0) := dx][(0, 1) := dx];
    assert FillRows(m0, dx, 1) == g1;
    assert ScanRow(m0, 0, WideRows[0], 1) == Cursor(g1, 2);
    assert Skip(g1, 0, 2) == 2;
    assert Placed(Cursor(g1, 2), 0, 1, CellY) == dy;
    assert FillRow(g1, dy, 0, 1) == g1[(0, 2) := dy];
    assert FillRows(g1, dy, 1) == g1[(0, 2) := dy];
    assert ScanRow(m0, 0, WideRows[0], 2) == Cursor(g1[(0, 2) := dy], 3);
    assert g1[(0, 2) := dy] == WideGrid;
    assert ScanRows(WideRows, 0) == m0;
    assert ScanRows(WideRows, 1) == ScanRow(m0, 0, WideRows[0], 2).grid;
  }

  /**
   * `getCellIndex` as written counts the wide cell X twice, so the index it
   * gives for column 2 is 2, while Y, the cell starting there, is cell 1 of
   * the row; the corrected count gives 1.
   */
  lemma CellIndexAsWrittenOvercounts()
    ensures (0, 2) in CellMap(WideRows) && CellMap(WideRows)[(0, 2)].cellIndex == 1
    ensures CountStarting(CellMap(WideRows), 0, 2) == Some(2)
    ensures CellIndex(CellMap(WideRows), 0, 2) == Some(1)
  {
    WideGridFacts();
  }

  /**
   * So inserting a column left of column 2 puts the new cell after Y, at the
   * index as written; the corrected index would put it between X and Y.
   */
  lemma InsertColLeftOfWideCell()
    ensures InsertCell(WideRows, 0, 1, EmptyCell) == Ok([[WideX, EmptyCell, CellY]])
    ensures InsertColSpec(TableValue(WideRows, TableData(300, [100, 100, 100], [32])), 2, true)
            == Ok(TableValue([[WideX, CellY, EmptyCell]], TableData(400, [100, 100, 100, 100], [32])))
  {
    WideGridFacts();
    var g := WideGrid;
    assert WideRows[0][..1] + [EmptyCell] + WideRows[0][1..] == [WideX, EmptyCell, CellY];
    assert WideRows[0 := [WideX, EmptyCell, CellY]] == [[WideX, EmptyCell, CellY]];
    assert CountStarting(g, 0, 0) == Some(0);
    assert CountStarting(g, 0, 1) == Some(1);
    assert CountStarting(g, 0, 2) == Some(2);
    assert ColInserts(g[(0, 2)], 2, true);
    assert InsertColScan(g, WideRows, 2, true, 0) == Ok(WideRows);
    assert WideRows[0][..2] + [EmptyCell] + WideRows[0][2..] == [WideX, CellY, EmptyCell];
    assert WideRows[0 := [WideX, CellY, EmptyCell]] == [[WideX, CellY, EmptyCell]];
    assert InsertCell(WideRows, 0, 2, EmptyCell) == Ok([[WideX, CellY, EmptyCell]]);
    assert InsertColScan(g, WideRows, 2, true, 1) == Ok([[WideX, CellY, EmptyCell]]);
    assert SpliceInsert([100, 100, 100], 2, 100) == [100, 100, 100, 100];
  }

  /**
   * Inserting right of column 2 asks for index 3 of a two-cell row, past its
   * end, so the insert throws.
   */
  lemma InsertColRightOfWideCellThrows()
    ensures InsertColSpec(TableValue(WideRows, TableData(300, [100, 100, 100], [32])), 2, false) == Err(BadPath)
  {
    WideGridFacts();
    var g := WideGrid;
    assert CountStarting(g, 0, 0) == Some(0);
    assert CountStarting(g, 0, 1) == Some(1);
    assert CountStarting(g, 0, 2) == Some(2);
    assert ColInserts(g[(0, 2)], 2, false);
    assert InsertColScan(g, WideRows, 2, false, 0) == Ok(WideRows);
    assert InsertColScan(g, WideRows, 2, false, 1) == Err(BadPath);
  }

  const WideW := Cell(0, 2, [Text("w", map[])])
  const TwoWide: Rows := [[WideW, WideX]]
  const TwoWideGrid: Grid := map[(0, 0) := Desc(0, 0, 0, 1, 2), (0, 1) := Desc(0, 0, 0, 1, 2),
                                  (0, 2) := Desc(0, 2, 1, 1, 2), (0, 3) := Desc(0, 2, 1, 1, 2)]

  lemma TwoWideGridFacts()
    ensures CellMap(TwoWide) == TwoWideGrid
  {
    var m0: Grid := map[];
    var dw := Desc(0, 0, 0, 1, 2);
    var dx := Desc(0, 2, 1, 1, 2);
    assert Skip(m0, 0, 0) == 0;
    assert Placed(Cursor(m0, 0), 0, 0, WideW) == dw;
    assert FillRow(m0, dw, 0, 1) == m0[(0, 0) := dw];
    assert FillRow(m0, dw, 0, 2) == m0[(0, 0) := dw][(0, 1) := dw];
    var g1 := m0[(0, 0) := dw][(0, 1) := dw];
    assert FillRows(m0, dw, 1) == g1;
    assert ScanRow(m0, 0, TwoWide[0], 1) == Cursor(g1, 2);
    assert Skip(g1, 0, 2) == 2;
    assert Placed(Cursor(g1, 2), 0, 1, WideX) == dx;
    assert FillRow(g1, dx, 0, 1) == g1[(0, 2) := dx];
    assert FillRow(g1, dx, 0, 2) == g1[(0, 2) := dx][(0, 3) := dx];
    assert FillRows(g1, dx, 1) == g1[(0, 2) := dx][(0, 3) := dx];
    assert ScanRow(m0, 0, TwoWide[0], 2) == Cursor(g1[(0, 2) := dx][(0, 3) := dx], 4);
    assert g1[(0, 2) := dx][(0, 3) := dx] == TwoWideGrid;
    assert ScanRows(TwoWide, 0) == m0;
    assert ScanRows(TwoWide, 1) == ScanRow(m0, 0, TwoWide[0], 2).grid;
  }

  /**
   * Splitting the second of two wide cells asks for index 3 of a two-cell
   * row for its second column, so the insert throws.
   */
  lemma SplitSecondWideCellThrows()
    ensures SplitSpec(TableValue(TwoWide, TableData(400, [100, 100, 100, 100], [32])), 0, 2) == Err(BadPath)
  {
    TwoWideGridFacts();
    var g := TwoWideGrid;
    var d := Desc(0, 2, 1, 1, 2);
    assert g[(0, 2)] == d;
    assert CountStarting(g, 0, 0) == Some(0);
    assert CountStarting(g, 0, 1) == Some(1);
    assert CountStarting(g, 0, 2) == Some(2);
    assert CountStarting(g, 0, 3) == Some(3);
    assert SplitRow(g, d, TwoWide, 0, 1) == Ok(TwoWide);
    assert SplitRow(g, d, TwoWide, 0, 2) == Err(BadPath);
    assert Count(2) == 2 && Count(1) == 1;
    assert SplitRows(g, d, TwoWide, 0) == Ok(TwoWide);
    assert SplitRows(g, d, TwoWide, 1) == Err(BadPath);
  }

  // ---------------------------------------------------------------------
  // Merging two cells of a row and splitting them again
  // ---------------------------------------------------------------------

  const CellP := Cell(0, 0, [Text("p", map[])])
  const CellQ := Cell(0, 0, [Text("q", map[])])
  const PairRows: Rows := [[CellP, CellQ]]
  const PairGrid: Grid := map[(0, 0) := Desc(0, 0, 0, 1, 1), (0, 1) := Desc(0, 1, 1, 1, 1)]

  /** The two paragraphs the merged cell holds: each text wrapped in a paragraph. */
  const MergedPQ := Cell(1, 2, [Element(Paragraph, map[], [Text("p", map[])]), Element(Paragraph, map[], [Text("q", map[])])])

  lemma PairCellP()
    ensures ScanRow(map[], 0, PairRows[0], 1) == Cursor(map[(0, 0) := Desc(0, 0, 0, 1, 1)], 1)
  {
    var m0: Grid := map[];
    var dp := Desc(0, 0, 0, 1, 1);
    assert Skip(m0, 0, 0) == 0;
    assert Placed(Cursor(m0, 0), 0, 0, CellP) == dp;
    assert FillRow(m0, dp, 0, 1) == m0[(0, 0) := dp];
    assert FillRows(m0, dp, 1) == m0[(0, 0) := dp];
  }

  lemma PairGridFacts()
    ensures CellMap(PairRows) == PairGrid
  {
    var m0: Grid := map[];
    var g1 := map[(0, 0) := Desc(0, 0, 0, 1, 1)];
    var dq := Desc(0, 1, 1, 1, 1);
    PairCellP();
    assert Skip(g1, 0, 1) == 1;
    assert Placed(Cursor(g1, 1), 0, 1, CellQ) == dq;
    var g2 := g1[(0, 1) := dq];
    assert FillRow(g1, dq, 0, 1) == g2;
    assert FillRows(g1, dq, 1) == g2;
    assert ScanRow(m0, 0, PairRows[0], 2) == Cursor(g2, 2);
    assert ScanRows(PairRows, 1) == g2;
    assert g2 == PairGrid;
  }

  lemma PairScan()
    ensures MergeScan(PairGrid, SelectedCells(0, 0, 0, 1), PairGrid[(0, 0)], 1) == Ok(PairPlan)
  {
    var sel := SelectedCells(0, 0, 0, 1);
    var lt := PairGrid[(0, 0)];
    var p0 := MergePlan([], map[]);
    var dq := PairGrid[(0, 1)];
    assert Contained(lt, sel) && Contained(dq, sel);
    assert MergeVisit(p0, PairGrid, sel, lt, 0, 0) == Ok(p0);
    assert MergeScanRow(p0, PairGrid, sel, lt, 0, 1) == Ok(p0);
    assert dq != lt && dq.rowIndex == 0 && dq.colIndex == 1;
    assert Removed(map[], 0) == 0;
    var p1 := MergePlan([dq], map[0 := 1]);
    assert p0.merged + [dq] == [dq];
    assert p0.removeCount[0 := Removed(p0.removeCount, 0) + 1] == map[0 := 1];
    assert MergeVisit(p0, PairGrid, sel, lt, 0, 1) == Ok(p1);
    assert MergeScanRow(p0, PairGrid, sel, lt, 0, 2) == Ok(p1);
    assert MergeScan(PairGrid, sel, lt, 0) == Ok(p0);
    assert Count(sel.col2 - sel.col1 + 1) == 2;
    assert MergeScan(PairGrid, sel, lt, 1) == MergeScanRow(p0, PairGrid, sel, lt, 0, 2);
  }

  const ParaP := Element(Paragraph, map[], [Text("p", map[])])
  const ParaQ := Element(Paragraph, map[], [Text("q", map[])])
  const PairPlan := MergePlan([Desc(0, 1, 1, 1, 1)], map[0 := 1])

  /** Both cells hold a bare text, so each is wrapped in a paragraph. */
  lemma PairContent()
    ensures ParagraphContent(CellP.content) == Some([ParaP])
    ensures MergedContent(PairRows, PairPlan.merged, 1) == Ok([ParaQ])
  {
    assert CellP.content[1..] == [] && CellQ.content[1..] == [];
    assert !IsBlock(CellP.content[0]) && !IsBlock(CellQ.content[0]);
    assert [ParaP] == [Element(Paragraph, map[], [CellP.content[0]])] + CellP.content[1..];
    assert [ParaQ] == [Element(Paragraph, map[], [CellQ.content[0]])] + CellQ.content[1..];
    assert ParagraphContent(CellQ.content) == Some([ParaQ]);
    assert ValidCell(PairRows, 0, 1) && PairRows[0][1] == CellQ;
    assert MergedContent(PairRows, PairPlan.merged, 0) == Ok([]);
    assert [] + [ParaQ] == [ParaQ];
  }

  /** Deleting cell 1 of the row leaves the filled left cell alone. */
  lemma PairPruned()
    ensures RemovedIn(PairPlan.merged, 0) == {1}
    ensures Without([CellP.(content := [ParaP, ParaQ]), CellQ], {1}) == [CellP.(content := [ParaP, ParaQ])]
  {
    var dq := Desc(0, 1, 1, 1, 1);
    assert dq in PairPlan.merged;
    assert 1 in RemovedIn(PairPlan.merged, 0);
    forall x | x in RemovedIn(PairPlan.merged, 0) ensures x == 1 {
      var d :| d in PairPlan.merged && d.rowIndex == 0 && d.cellIndex == x;
      assert d == dq;
    }
    var row := [CellP.(content := [ParaP, ParaQ]), CellQ];
    assert row[..1] == [CellP.(content := [ParaP, ParaQ])];
    assert row[..1][..0] == [];
  }

  /**
   * Merging the two cells of a one-row table keeps the left cell, moves the
   * right cell's content into it (each wrapped in a paragraph) and makes it
   * two columns wide.
   */
  lemma MergePair()
    ensures MergeSpec(TableValue(PairRows, TableData(200, [100, 100], [32])), SelectedCells(0, 0, 0, 1))
            == Ok(TableValue([[MergedPQ]], TableData(200, [100, 100], [32])))
  {
    PairGridFacts();
    PairScan();
    PairContent();
    PairPruned();
    var lt := PairGrid[(0, 0)];
    var rb := PairGrid[(0, 1)];
    assert lt == Desc(0, 0, 0, 1, 1) && rb == Desc(0, 1, 1, 1, 1);
    assert !EmptiesRow(PairPlan, PairRows);
    assert ValidCell(PairRows, 0, 0) && PairRows[0][0] == CellP;
    var kept := CellP.(content := [ParaP] + [ParaQ]);
    var filled := [[kept, CellQ]];
    assert PairRows[0][0 := kept] == [kept, CellQ];
    assert PairRows[0 := PairRows[0][0 := kept]] == filled;
    var pruned := Prune(filled, PairPlan.merged);
    assert [ParaP] + [ParaQ] == [ParaP, ParaQ];
    assert pruned == [[kept]];
    assert kept.(rowSpan := 1, colSpan := 2) == MergedPQ;
    assert Count(0 - 0 + 1) == 1 && |PairPlan.merged| == 1;
    assert ValidCell(pruned, 0, 0) && pruned[0][0] == kept;
    assert pruned[0] == [kept] && [kept][0 := MergedPQ] == [MergedPQ];
    assert pruned[0 := [MergedPQ]] == [[MergedPQ]];
  }

  const MergedGrid: Grid := map[(0, 0) := Desc(0, 0, 0, 1, 2), (0, 1) := Desc(0, 0, 0, 1, 2)]

  lemma MergedGridFacts()
    ensures CellMap([[MergedPQ]]) == MergedGrid
  {
    var m0: Grid := map[];
    var d := Desc(0, 0, 0, 1, 2);
    assert Skip(m0, 0, 0) == 0;
    assert Placed(Cursor(m0, 0), 0, 0, MergedPQ) == d;
    assert FillRow(m0, d, 0, 1) == m0[(0, 0) := d];
    assert FillRow(m0, d, 0, 2) == MergedGrid;
    assert FillRows(m0, d, 1) == MergedGrid;
    assert ScanRow(m0, 0, [MergedPQ], 1) == Cursor(MergedGrid, 2);
    assert ScanRows([[MergedPQ]], 0) == m0;
    assert ScanRows([[MergedPQ]], 1) == ScanRow(m0, 0, [MergedPQ], 1).grid;
  }

  /** Splitting the merged cell again gives two one-column cells, the second one empty. */
  lemma SplitMergedPair()
    ensures SplitSpec(TableValue([[MergedPQ]], TableData(200, [100, 100], [32])), 0, 0)
            == Ok(TableValue([[MergedPQ.(colSpan := 1), EmptyCell]], TableData(200, [100, 100], [32])))
  {
    MergedGridFacts();
    var g := MergedGrid;
    var d := Desc(0, 0, 0, 1, 2);
    assert g[(0, 0)] == d;
    assert CountStarting(g, 0, 0) == Some(0);
    assert CountStarting(g, 0, 1) == Some(1);
    assert SplitRow(g, d, [[MergedPQ]], 0, 1) == Ok([[MergedPQ]]);
    assert [MergedPQ][..1] + [EmptyCell] + [MergedPQ][1..] == [MergedPQ, EmptyCell];
    assert [[MergedPQ]][0 := [MergedPQ, EmptyCell]] == [[MergedPQ, EmptyCell]];
    assert InsertCell([[MergedPQ]], 0, 1, EmptyCell) == Ok([[MergedPQ, EmptyCell]]);
    assert CountStarting(g, d.rowIndex + 0, d.colIndex + 1) == Some(1);
    assert SplitRow(g, d, [[MergedPQ]], 0, 2) == Ok([[MergedPQ, EmptyCell]]);
    assert Count(2) == 2 && Count(1) == 1;
    assert SplitRows(g, d, [[MergedPQ]], 0) == Ok([[MergedPQ]]);
    assert SplitRows(g, d, [[MergedPQ]], 1) == Ok([[MergedPQ, EmptyCell]]);
    var rows' := [[MergedPQ, EmptyCell]];
    assert ValidCell(rows', 0, 0) && rows'[0][0] == MergedPQ;
    assert MergedPQ.(rowSpan := 1, colSpan := 1) == MergedPQ.(colSpan := 1);
    assert rows'[0][0 := MergedPQ.(colSpan := 1)] == [MergedPQ.(colSpan := 1), EmptyCell];
    assert rows'[0 := [MergedPQ.(colSpan := 1), EmptyCell]] == [[MergedPQ.(colSpan := 1), EmptyCell]];
    assert [MergedPQ, EmptyCell][0 := MergedPQ.(colSpan := 1)] == [MergedPQ.(colSpan := 1), EmptyCell];
  }
}
