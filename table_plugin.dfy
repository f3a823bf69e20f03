/**
 * The table plugin of src/lib/editor/plugins/table.tsx: the structural
 * repair of `table` and `tr` nodes, the delete keys inside a cell, and the
 * selection state of a rendered table with the toolbar's enablement rules.
 */
module TablePlugin {
  import opened Wrappers
  import opened Document
  import opened TableGrid
  import opened TableEditor

  // ---------------------------------------------------------------------
  // normalizeNode (table.tsx:18-43)
  // ---------------------------------------------------------------------

  /** The type a `table`'s element children must have (`tr`), and a `tr`'s (`td`). */
  function ChildKind(kind: string): Option<string>
  {
    if kind == Table then Some(TableRow) else if kind == TableRow then Some(TableCell) else None
  }

  /** An element child of the wrong type; text children are not checked. */
  predicate Misplaced(child: Node, want: string)
  {
    child.Element? && child.kind != want
  }

  /** The number of misplaced children. */
  function MisplacedCount(children: seq<Node>, want: string): nat
  {
    if |children| == 0 then 0
    else MisplacedCount(children[..|children| - 1], want) + (if Misplaced(children[|children| - 1], want) then 1 else 0)
  }

  /**
   * The table plugin's `normalizeNode` on one node: the first misplaced
   * child of a `table` or `tr` is wrapped in a new element of the right type
   * and the call returns; None passes the node on to the previous rule.
   */
  method NormalizeTableNode(node: Node) returns (r: Option<Node>)
    ensures r.None? <==> (!node.Element? || ChildKind(node.kind).None?
                          || forall k :: 0 <= k < |node.children| ==> !Misplaced(node.children[k], ChildKind(node.kind).value))
    ensures r.Some? ==> (node.Element? && ChildKind(node.kind).Some? &&
              exists k :: 0 <= k < |node.children| && Misplaced(node.children[k], ChildKind(node.kind).value)
                && (forall k' :: 0 <= k' < k ==> !Misplaced(node.children[k'], ChildKind(node.kind).value))
                && r.value == node.(children := node.children[k := Element(ChildKind(node.kind).value, map[], [node.children[k]])]))
  {
    if !node.Element? {
      return None;
    }
    var want := ChildKind(node.kind);
    if want.None? {
      return None;
    }
    var k := 0;
    while k < |node.children|
      invariant 0 <= k <= |node.children|
      invariant forall k' :: 0 <= k' < k ==> !Misplaced(node.children[k'], want.value)
    {
      var child := node.children[k];
      if child.Element? && child.kind != want.value {
        return Some(node.(children := node.children[k := Element(want.value, map[], [child])]));
      }
      k := k + 1;
    }
    return None;
  }

  lemma {:induction false} MisplacedCountUpdate(children: seq<Node>, want: string, k: nat, c: Node)
    requires k < |children|
    ensures MisplacedCount(children[k := c], want)
            == MisplacedCount(children, want) - (if Misplaced(children[k], want) then 1 else 0) + (if Misplaced(c, want) then 1 else 0)
    decreases |children|
  {
    var n := |children|;
    if k < n - 1 {
      assert children[k := c][..n - 1] == children[..n - 1][k := c];
      MisplacedCountUpdate(children[..n - 1], want, k, c);
    } else {
      assert children[k := c][..n - 1] == children[..n - 1];
    }
  }

  /** Each repair fixes one child and breaks none, so repeated normalisation of a node ends. */
  lemma RepairFixesOne(node: Node, want: string, k: nat)
    requires node.Element? && ChildKind(node.kind) == Some(want)
    requires k < |node.children| && Misplaced(node.children[k], want)
    ensures MisplacedCount(node.children[k := Element(want, map[], [node.children[k]])], want)
            == MisplacedCount(node.children, want) - 1
  {
    MisplacedCountUpdate(node.children, want, k, Element(want, map[], [node.children[k]]));
  }

  // ---------------------------------------------------------------------
  // deleteBackward / deleteForward in a cell (table.tsx:45-90)
  // ---------------------------------------------------------------------

  /**
   * Backspace with a collapsed selection in a cell.  At the cell's start the
   * key is swallowed: a non-paragraph first block becomes a paragraph,
   * otherwise the first child goes when there is more than one.  Elsewhere
   * (None) the previous `deleteBackward` runs.
   */
  function CellDeleteBackward(children: seq<Node>, atStart: bool): (r: Option<seq<Node>>)
    ensures r.None? <==> !atStart
    ensures r.Some? ==> r.value == children || (|children| > 1 && r.value == children[1..])
                        || (|children| > 0 && r.value == [SetKind(children[0], Paragraph)] + children[1..])
    ensures r.Some? && |children| > 0 ==> |r.value| > 0
  {
    if !atStart then None
    else if |children| > 0 && IsBlock(children[0]) && children[0].kind != Paragraph then
      Some(children[0 := SetKind(children[0], Paragraph)])
    else if |children| > 1 then Some(children[1..])
    else Some(children)
  }

  /** Backspace at a cell's start changes the cell until it holds one child that is text or a paragraph. */
  lemma CellBackspaceFixpoint(children: seq<Node>)
    ensures CellDeleteBackward(children, true) == Some(children)
            <==> |children| <= 1 && (|children| == 0 || !IsBlock(children[0]) || children[0].kind == Paragraph)
  {
    if |children| > 0 && IsBlock(children[0]) && children[0].kind != Paragraph {
      assert children[0 := SetKind(children[0], Paragraph)][0].kind == Paragraph;
    }
    if |children| > 1 {
      assert |children[1..]| < |children|;
    }
  }

  /** Forward delete at a cell's end is swallowed, leaving the cell as it is. */
  function CellDeleteForward(children: seq<Node>, atEnd: bool): (r: Option<seq<Node>>)
    ensures r.None? <==> !atEnd
    ensures r.Some? ==> r.value == children
  {
    if atEnd then Some(children) else None
  }

  // ---------------------------------------------------------------------
  // onSelectCell (table.tsx:331-394)
  // ---------------------------------------------------------------------

  function Min(a: int, b: int): int { if a <= b then a else b }

  function Max(a: int, b: int): int { if a <= b then b else a }

  /** The rectangle with the corner under the pointer, its corners ordered. */
  function Normalised(sel: SelectedCells, row: int, col: int): SelectedCells
  {
    SelectedCells(Min(sel.row1, row), Min(sel.col1, col), Max(sel.row1, row), Max(sel.col1, col))
  }

  predicate InRect(s: SelectedCells, i: int, j: int)
  {
    s.row1 <= i <= s.row2 && s.col1 <= j <= s.col2
  }

  /** `outer` contains `inner`. */
  predicate Covers(outer: SelectedCells, inner: SelectedCells)
  {
    outer.row1 <= inner.row1 && inner.row2 <= outer.row2 && outer.col1 <= inner.col1 && inner.col2 <= outer.col2
  }

  /** A cell's footprint as a rectangle. */
  function Footprint(d: Desc): SelectedCells
  {
    SelectedCells(d.rowIndex, d.colIndex, d.rowIndex + d.rowSpan - 1, d.colIndex + d.colSpan - 1)
  }

  /** Position (i', j') of `n` comes before (i, j) in the row-major scan. */
  predicate Scanned(n: SelectedCells, i: int, j: int, i': int, j': int)
  {
    InRect(n, i', j') && (i' < i || (i' == i && j' < j))
  }

  /** Every edge of `cur` is an edge of `n` or of the footprint of a scanned cell. */
  ghost predicate Attained(cur: SelectedCells, n: SelectedCells, g: Grid, i: int, j: int)
  {
    && (cur.row1 == n.row1 || exists i', j' :: Scanned(n, i, j, i', j') && (i', j') in g && g[(i', j')].rowIndex == cur.row1)
    && (cur.col1 == n.col1 || exists i', j' :: Scanned(n, i, j, i', j') && (i', j') in g && g[(i', j')].colIndex == cur.col1)
    && (cur.row2 == n.row2 || exists i', j' :: Scanned(n, i, j, i', j') && (i', j') in g && Footprint(g[(i', j')]).row2 == cur.row2)
    && (cur.col2 == n.col2 || exists i', j' :: Scanned(n, i, j, i', j') && (i', j') in g && Footprint(g[(i', j')]).col2 == cur.col2)
  }

  /** What a pointer event over a cell does to the selection. */
  datatype CellPick =
    | Ignored                  // no first corner yet: nothing happens
    | Thrown                   // a position of the rectangle has no cell: a TypeError
    | Picked(cells: SelectedCells)

  /**
   * The rectangle `onSelectCell` computes when the pointer is over the cell at
   * (row, col): the ordered rectangle, grown in one row-major pass by the
   * footprint of every cell met inside it.
   */
  method GrowSelection(g: Grid, sel: SelectedCells, row: int, col: int) returns (r: CellPick)
    ensures r == Ignored <==> sel.col1 < 0 || sel.row1 < 0
    ensures r == Thrown <==> !(sel.col1 < 0 || sel.row1 < 0) && exists i, j :: InRect(Normalised(sel, row, col), i, j) && (i, j) !in g
    ensures r.Picked? ==> Covers(r.cells, Normalised(sel, row, col))
    ensures r.Picked? ==> forall i, j :: InRect(Normalised(sel, row, col), i, j) ==> (i, j) in g && Covers(r.cells, Footprint(g[(i, j)]))
    ensures r.Picked? ==> var n := Normalised(sel, row, col); Attained(r.cells, n, g, n.row2 + 1, n.col1)
  {
    if sel.col1 < 0 || sel.row1 < 0 {
      return Ignored;
    }
    var n := Normalised(sel, row, col);
    var cur := n;
    var i := n.row1;
    while i <= n.row2
      invariant n.row1 <= i <= n.row2 + 1
      invariant Grown(cur, n, g, i, n.col1)
    {
      var next := GrowRow(g, n, cur, i);
      if next.None? {
        return Thrown;
      }
      cur := next.value;
      i := i + 1;
    }
    GrownDone(cur, n, g);
    return Picked(cur);
  }

  /** The state of the scan before position (i, j): what the loops of `onSelectCell` keep. */
  ghost predicate Grown(cur: SelectedCells, n: SelectedCells, g: Grid, i: int, j: int)
  {
    && Covers(cur, n)
    && (forall i', j' :: Scanned(n, i, j, i', j') ==> (i', j') in g && Covers(cur, Footprint(g[(i', j')])))
    && Attained(cur, n, g, i, j)
  }

  /** The inner loop of `onSelectCell` over row `i`: None when a position of the row has no cell. */
  method GrowRow(g: Grid, n: SelectedCells, start: SelectedCells, i: int) returns (res: Option<SelectedCells>)
    requires n.row1 <= i <= n.row2 && n.col1 <= n.col2 && Grown(start, n, g, i, n.col1)
    ensures res.None? ==> exists j :: InRect(n, i, j) && (i, j) !in g
    ensures res.Some? ==> Grown(res.value, n, g, i + 1, n.col1)
  {
    var cur := start;
    var j := n.col1;
    while j <= n.col2
      invariant n.col1 <= j <= n.col2 + 1
      invariant Grown(cur, n, g, i, j)
    {
      if (i, j) !in g {
        assert InRect(n, i, j);
        return None;
      }
      var cell := g[(i, j)];
      var next := SelectedCells(Min(cur.row1, cell.rowIndex), Min(cur.col1, cell.colIndex),
                                Max(cur.row2, cell.rowIndex + cell.rowSpan - 1), Max(cur.col2, cell.colIndex + cell.colSpan - 1));
      GrownStep(cur, next, n, g, i, j);
      cur := next;
      j := j + 1;
    }
    GrownNextRow(cur, n, g, i);
    return Some(cur);
  }

  lemma GrownStep(cur: SelectedCells, next: SelectedCells, n: SelectedCells, g: Grid, i: int, j: int)
    requires InRect(n, i, j) && (i, j) in g
    requires Grown(cur, n, g, i, j)
    requires var d := g[(i, j)];
             next == SelectedCells(Min(cur.row1, d.rowIndex), Min(cur.col1, d.colIndex),
                                   Max(cur.row2, d.rowIndex + d.rowSpan - 1), Max(cur.col2, d.colIndex + d.colSpan - 1))
    ensures Grown(next, n, g, i, j + 1)
  {
    assert Scanned(n, i, j + 1, i, j);
    forall i', j' | Scanned(n, i, j + 1, i', j')
      ensures (i', j') in g && Covers(next, Footprint(g[(i', j')]))
    {
      if !(i' == i && j' == j) {
        assert Scanned(n, i, j, i', j');
      }
    }
  }

  lemma GrownNextRow(cur: SelectedCells, n: SelectedCells, g: Grid, i: int)
    requires Grown(cur, n, g, i, n.col2 + 1)
    ensures Grown(cur, n, g, i + 1, n.col1)
  {
  }

  /** After the last row every position of the rectangle has been scanned. */
  lemma GrownDone(cur: SelectedCells, n: SelectedCells, g: Grid)
    requires Grown(cur, n, g, n.row2 + 1, n.col1)
    ensures forall i, j :: InRect(n, i, j) ==> (i, j) in g && Covers(cur, Footprint(g[(i, j)]))
  {
    forall i, j | InRect(n, i, j)
      ensures (i, j) in g && Covers(cur, Footprint(g[(i, j)]))
    {
      assert Scanned(n, n.row2 + 1, n.col1, i, j);
    }
  }

  // ---------------------------------------------------------------------
  // The selection state of a rendered table (table.tsx:214-530)
  // ---------------------------------------------------------------------

  /** `EmptySelectedCells`. */
  const NoCells := SelectedCells(-1, -1, -1, -1)

  /**
   * The selection the table component keeps: the selected rectangle, and the
   * row or column picked from the row and column headers.
   */
  class TableSelection {
    var cells: SelectedCells
    var selectedRows: seq<int>
    var selectedCols: seq<int>

    constructor ()
      ensures cells == NoCells && selectedRows == [] && selectedCols == []
    {
      cells := NoCells;
      selectedRows := [];
      selectedCols := [];
    }

    /** `onSelectRow(rowIndex)`: the whole row, across the `colCount` columns. */
    method SelectRow(rowIndex: int, colCount: int)
      modifies this
      ensures cells == SelectedCells(rowIndex, 0, rowIndex, colCount - 1)
      ensures selectedRows == [rowIndex] && selectedCols == []
    {
      selectedRows := [rowIndex];
      selectedCols := [];
      cells := SelectedCells(rowIndex, 0, rowIndex, colCount - 1);
    }

    /** `onSelectCol(colIndex)`: the whole column, down the `rowCount` rows. */
    method SelectCol(colIndex: int, rowCount: int)
      modifies this
      ensures cells == SelectedCells(0, colIndex, rowCount - 1, colIndex)
      ensures selectedRows == [] && selectedCols == [colIndex]
    {
      selectedRows := [];
      selectedCols := [colIndex];
      cells := SelectedCells(0, colIndex, rowCount - 1, colIndex);
    }

    /** A press on the cell at (rowIndex, colIndex) starts a new selection there. */
    method PressCell(rowIndex: int, colIndex: int)
      modifies this
      ensures cells == SelectedCells(rowIndex, colIndex, -1, -1)
      ensures selectedRows == [] && selectedCols == []
    {
      selectedCols := [];
      selectedRows := [];
      cells := SelectedCells(rowIndex, colIndex, -1, -1);
    }

    /**
     * `onSelectCell` with the pointer over (row, col): at the end of a drag
     * the grown rectangle becomes the selection; during the drag it is only
     * shown.
     */
    method SelectCell(g: Grid, row: int, col: int, isEnd: bool) returns (shown: CellPick)
      modifies this
      ensures shown.Picked? ==> Covers(shown.cells, Normalised(old(cells), row, col))
      ensures cells == if isEnd && shown.Picked? then shown.cells else old(cells)
      ensures selectedRows == old(selectedRows) && selectedCols == old(selectedCols)
    {
      shown := GrowSelection(g, cells, row, col);
      if isEnd && shown.Picked? {
        cells := shown.cells;
      }
    }

    predicate CanInsertRowAbove()
      reads this
    {
      cells.row1 > 0 && |selectedCols| == 0
    }

    predicate CanInsertRowBelow()
      reads this
    {
      cells.row1 >= 0 && |selectedCols| == 0
    }

    predicate CanInsertColLeft()
      reads this
    {
      cells.col1 > 0 && |selectedRows| == 0
    }

    predicate CanInsertColRight()
      reads this
    {
      cells.col1 >= 0 && |selectedRows| == 0
    }

    predicate CanMerge()
      reads this
    {
      cells.row2 > cells.row1 || cells.col2 > cells.col1
    }

    predicate CanSplit()
      reads this
    {
      cells.row1 >= 0 && cells.col1 >= 0 && cells.row2 < 0 && cells.col2 < 0
    }

    /**
     * The insert-row-above button, given what `insertRow(table, row1)` came
     * to (`Some` when it threw): after an insertion the selected cells are
     * one row further down; after a throw the selection is as it was.
     */
    method InsertedRowAbove(err: Option<TableError>)
      modifies this
      ensures err.None? ==> cells == old(cells).(row1 := old(cells).row1 + 1, row2 := old(cells).row2 + 1)
      ensures err.Some? ==> cells == old(cells)
      ensures selectedRows == old(selectedRows) && selectedCols == old(selectedCols)
    {
      if err.None? {
        cells := cells.(row1 := cells.row1 + 1, row2 := cells.row2 + 1);
      }
    }

    /** The insert-column-left button, given what `insertCol(table, col1)` came to: one column further right. */
    method InsertedColLeft(err: Option<TableError>)
      modifies this
      ensures err.None? ==> cells == old(cells).(col1 := old(cells).col1 + 1, col2 := old(cells).col2 + 1)
      ensures err.Some? ==> cells == old(cells)
      ensures selectedRows == old(selectedRows) && selectedCols == old(selectedCols)
    {
      if err.None? {
        cells := cells.(col1 := cells.col1 + 1, col2 := cells.col2 + 1);
      }
    }

    /**
     * The delete-row button: `removed` is the row it passes to `removeRow`,
     * none without a selected row, and `err` what that call came to.  Only
     * a removal that did not throw clears the row and the cell selection.
     */
    method DeletedRow(err: Option<TableError>) returns (removed: Option<int>)
      modifies this
      ensures removed == if |old(selectedRows)| > 0 then Some(old(selectedRows)[0]) else None
      ensures removed.Some? && err.None? ==> cells == NoCells && selectedRows == [] && selectedCols == old(selectedCols)
      ensures removed.None? || err.Some? ==> cells == old(cells) && selectedRows == old(selectedRows) && selectedCols == old(selectedCols)
    {
      if |selectedRows| > 0 {
        removed := Some(selectedRows[0]);
        if err.None? {
          selectedRows := [];
          cells := NoCells;
        }
      } else {
        removed := None;
      }
    }

    /** The delete-column button, likewise with `removeCol`. */
    method DeletedCol(err: Option<TableError>) returns (removed: Option<int>)
      modifies this
      ensures removed == if |old(selectedCols)| > 0 then Some(old(selectedCols)[0]) else None
      ensures removed.Some? && err.None? ==> cells == NoCells && selectedCols == [] && selectedRows == old(selectedRows)
      ensures removed.None? || err.Some? ==> cells == old(cells) && selectedRows == old(selectedRows) && selectedCols == old(selectedCols)
    {
      if |selectedCols| > 0 {
        removed := Some(selectedCols[0]);
        if err.None? {
          selectedCols := [];
          cells := NoCells;
        }
      } else {
        removed := None;
      }
    }
  }

  // ---------------------------------------------------------------------
  // What the enablement rules imply
  // ---------------------------------------------------------------------

  /** Merge and split are never offered together. */
  lemma MergeSplitExclusive(s: TableSelection)
    ensures !(s.CanMerge() && s.CanSplit())
  {
  }

  /** Inserting above is offered only where inserting below is. */
  lemma AboveImpliesBelow(s: TableSelection)
    ensures s.CanInsertRowAbove() ==> s.CanInsertRowBelow()
    ensures s.CanInsertColLeft() ==> s.CanInsertColRight()
  {
  }

  /** A press on a cell offers split and, for the cell's row and column, the inserts below and right. */
  method PressThenTools(rowIndex: nat, colIndex: nat) returns (s: TableSelection)
    ensures s.CanSplit() && !s.CanMerge()
    ensures s.CanInsertRowBelow() && s.CanInsertColRight()
    ensures s.CanInsertRowAbove() <==> rowIndex > 0
    ensures s.CanInsertColLeft() <==> colIndex > 0
  {
    s := new TableSelection();
    s.PressCell(rowIndex, colIndex);
  }

  /**
   * Selecting a row of a table with `colCount` columns offers merge exactly
   * when there are two or more columns, never split, and no column insert.
   */
  method SelectRowThenTools(rowIndex: nat, colCount: nat) returns (s: TableSelection)
    ensures s.CanMerge() <==> colCount >= 2
    ensures !s.CanSplit() && !s.CanInsertColLeft() && !s.CanInsertColRight()
    ensures s.CanInsertRowBelow() && (s.CanInsertRowAbove() <==> rowIndex > 0)
  {
    s := new TableSelection();
    s.SelectRow(rowIndex, colCount);
  }

  /**
   * A grown selection is ordered, so once stored it is offered for merge
   * exactly when it spans more than one position.
   */
  lemma PickedIsOrdered(g: Grid, sel: SelectedCells, row: int, col: int, picked: SelectedCells, s: TableSelection)
    requires Covers(picked, Normalised(sel, row, col)) && s.cells == picked
    ensures picked.row1 <= picked.row2 && picked.col1 <= picked.col2
    ensures s.CanMerge() <==> picked.row1 != picked.row2 || picked.col1 != picked.col2
  {
  }
}
