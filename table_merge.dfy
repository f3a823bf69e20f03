// What `mergeCells` (table-editor.ts:310-361) does to the rows once its
// checks pass: which cells go, where the survivors end up, what the
// top-left cell holds afterwards, and how many cells the table loses.

module TableFactsMergeEffect {
  import opened Wrappers
  import opened Document
  import opened TableGrid
  import opened TableEditor
  import opened TableFactsMerge

  // ---------------------------------------------------------------------
  // Deleting cells by index
  // ---------------------------------------------------------------------

  /** The indexes of `ks` below `n`: how far left a kept cell at index `n` moves. */
  function Below(ks: set<int>, n: int): set<int>
  {
    set k | k in ks && 0 <= k < n
  }

  lemma BelowStep(ks: set<int>, n: int)
    requires n >= 0
    ensures n in ks ==> |Below(ks, n + 1)| == |Below(ks, n)| + 1
    ensures n !in ks ==> Below(ks, n + 1) == Below(ks, n)
  {
    if n in ks {
      assert Below(ks, n + 1) == Below(ks, n) + {n};
    } else {
      assert Below(ks, n + 1) == Below(ks, n);
    }
  }

  /** At most `n` indexes lie below `n`. */
  lemma {:induction false} BelowBound(ks: set<int>, n: int)
    requires n >= 0
    ensures |Below(ks, n)| <= n
    decreases n
  {
    if n == 0 {
      assert Below(ks, 0) == {};
    } else {
      BelowBound(ks, n - 1);
      BelowStep(ks, n - 1);
    }
  }

  /** Two kept indexes keep their order, and do not meet, once the deleted ones are gone. */
  lemma {:induction false} BelowGap(ks: set<int>, a: int, b: int)
    requires 0 <= a < b && a !in ks
    ensures a - |Below(ks, a)| < b - |Below(ks, b)|
    decreases b - a
  {
    BelowStep(ks, b - 1);
    if a < b - 1 {
      BelowGap(ks, a, b - 1);
    }
  }

  /**
   * `Without(row, ks)` keeps, in order, exactly the cells whose index is not
   * in `ks`: it loses one cell per deleted index, and the cell at a kept index
   * `k` moves left by the number of deleted indexes below `k`.
   */
  lemma {:induction false} WithoutMeaning(row: seq<Cell>, ks: set<int>)
    ensures |Without(row, ks)| == |row| - |Below(ks, |row|)|
    ensures forall k :: 0 <= k < |row| && k !in ks ==>
              0 <= k - |Below(ks, k)| < |Without(row, ks)| && Without(row, ks)[k - |Below(ks, k)|] == row[k]
    decreases |row|
  {
    if |row| == 0 {
      assert Below(ks, 0) == {};
    } else {
      var n := |row| - 1;
      var pre := row[..n];
      var w := Without(pre, ks);
      assert Without(row, ks) == w + (if n in ks then [] else [row[n]]);
      WithoutMeaning(pre, ks);
      BelowStep(ks, n);
      forall k | 0 <= k < |row| && k !in ks
        ensures 0 <= k - |Below(ks, k)| < |Without(row, ks)| && Without(row, ks)[k - |Below(ks, k)|] == row[k]
      {
        BelowBound(ks, k);
        if k < n {
          assert pre[k] == row[k];
          assert Without(row, ks)[k - |Below(ks, k)|] == w[k - |Below(ks, k)|];
        } else {
          assert k - |Below(ks, k)| == |w|;
        }
      }
    }
  }

  // ---------------------------------------------------------------------
  // The moved contents
  // ---------------------------------------------------------------------

  /** The child lists one after the other. */
  function Concat(ss: seq<seq<Node>>): (r: seq<Node>)
  {
    if |ss| == 0 then [] else Concat(ss[..|ss| - 1]) + ss[|ss| - 1]
  }

  /** The cell `d` names exists and its children can be put in paragraph form. */
  predicate Movable(rows: Rows, d: Desc)
  {
    ValidCell(rows, d.rowIndex, d.cellIndex) && ParagraphContent(rows[d.rowIndex][d.cellIndex].content).Some?
  }

  /** The children a merged cell hands over: its own, an inline first child wrapped in a paragraph. */
  function Contribution(rows: Rows, d: Desc): seq<Node>
  {
    if Movable(rows, d) then ParagraphContent(rows[d.rowIndex][d.cellIndex].content).value else []
  }

  /** The contributions of the first `n` merged cells, in scan order. */
  function Contributions(rows: Rows, merged: seq<Desc>, n: nat): (r: seq<seq<Node>>)
    requires n <= |merged|
    ensures |r| == n && forall k :: 0 <= k < n ==> r[k] == Contribution(rows, merged[k])
  {
    seq(n, k requires 0 <= k < n => Contribution(rows, merged[k]))
  }

  /**
   * Moving the contents goes through iff every merged cell exists and can be
   * put in paragraph form; the moved children are then the merged cells'
   * contributions one after the other, in scan order.
   */
  lemma {:induction false} MergedContentMeaning(rows: Rows, merged: seq<Desc>, n: nat)
    requires n <= |merged|
    ensures MergedContent(rows, merged, n).Ok? <==> forall k :: 0 <= k < n ==> Movable(rows, merged[k])
    ensures MergedContent(rows, merged, n).Ok? ==> MergedContent(rows, merged, n).value == Concat(Contributions(rows, merged, n))
  {
    if n > 0 {
      MergedContentMeaning(rows, merged, n - 1);
      var prev := MergedContent(rows, merged, n - 1);
      var d := merged[n - 1];
      if prev.Ok? {
        if Movable(rows, d) {
          assert MergedContent(rows, merged, n) == Ok(prev.value + Contribution(rows, d));
          assert Contributions(rows, merged, n) == Contributions(rows, merged, n - 1) + [Contribution(rows, d)];
        } else {
          assert MergedContent(rows, merged, n).Err?;
        }
      }
    }
  }

  // ---------------------------------------------------------------------
  // The rows after the merge
  // ---------------------------------------------------------------------

  /** Every deleted cell of the top-left cell's row comes after it. */
  predicate TopLeftFirst(lt: Desc, merged: seq<Desc>)
  {
    forall d :: d in merged && d.rowIndex == lt.rowIndex ==> d.cellIndex > lt.cellIndex
  }

  /** The top-left cell after the merge: its old children and the moved ones, and the new spans. */
  function MergedCell(c: Cell, kept: seq<Node>, moved: seq<Node>, lt: Desc, rb: Desc): Cell
  {
    c.(content := kept + moved, rowSpan := rb.rowIndex + rb.rowSpan - lt.rowIndex, colSpan := rb.colIndex + rb.colSpan - lt.colIndex)
  }

  /** Row `i` of `r` is shorter than row `i` of `rows` by the deleted indexes inside it. */
  predicate ShorterBy(rows: Rows, r: Rows, merged: seq<Desc>)
  {
    |r| == |rows| && forall i :: 0 <= i < |rows| ==> |r[i]| == |rows[i]| - |Below(RemovedIn(merged, i), |rows[i]|)|
  }

  /**
   * Every cell of `row` whose index is not in `ks`, other than the one at
   * `hole`, is in `res`, moved left by the indexes of `ks` before it.
   */
  predicate RowKept(row: seq<Cell>, res: seq<Cell>, ks: set<int>, hole: int)
  {
    forall k :: 0 <= k < |row| && k !in ks && k != hole ==>
      0 <= k - |Below(ks, k)| < |res| && res[k - |Below(ks, k)|] == row[k]
  }

  /**
   * Every cell of `rows` whose index is not deleted, other than the cell at
   * `lt`, is in `r`, in the same row, moved left by the deleted indexes
   * before it.
   */
  predicate KeptInOrder(rows: Rows, r: Rows, merged: seq<Desc>, lt: Desc)
  {
    |r| == |rows|
    && forall i :: 0 <= i < |rows| ==>
         RowKept(rows[i], r[i], RemovedIn(merged, i), if i == lt.rowIndex then lt.cellIndex else -1)
  }

  /** The rows `MergeApply` builds: the top-left cell filled, the merged cells pruned, the spans set. */
  lemma MergeApplyShape(rows: Rows, lt: Desc, rb: Desc, plan: MergePlan)
    requires MergeApply(rows, lt, rb, plan).Ok?
    ensures ValidCell(rows, lt.rowIndex, lt.cellIndex)
    ensures ParagraphContent(rows[lt.rowIndex][lt.cellIndex].content).Some?
    ensures MergedContent(rows, plan.merged, |plan.merged|).Ok?
    ensures var c0 := rows[lt.rowIndex][lt.cellIndex];
            var moved := MergedContent(rows, plan.merged, |plan.merged|).value;
            var filled := rows[lt.rowIndex := rows[lt.rowIndex][lt.cellIndex := c0.(content := ParagraphContent(c0.content).value + moved)]];
            var pruned := Prune(filled, plan.merged);
            && ValidCell(pruned, lt.rowIndex, lt.cellIndex)
            && MergeApply(rows, lt, rb, plan).value
               == pruned[lt.rowIndex := pruned[lt.rowIndex][lt.cellIndex :=
                    pruned[lt.rowIndex][lt.cellIndex].(rowSpan := rb.rowIndex + rb.rowSpan - lt.rowIndex,
                                                       colSpan := rb.colIndex + rb.colSpan - lt.colIndex)]]
  {
  }

  /** After the scan, row `i` is shorter by the deleted indexes that lie inside it. */
  lemma MergeApplyLengths(rows: Rows, lt: Desc, rb: Desc, plan: MergePlan)
    requires MergeApply(rows, lt, rb, plan).Ok?
    ensures ShorterBy(rows, MergeApply(rows, lt, rb, plan).value, plan.merged)
  {
    MergeApplyShape(rows, lt, rb, plan);
    var c0 := rows[lt.rowIndex][lt.cellIndex];
    var moved := MergedContent(rows, plan.merged, |plan.merged|).value;
    var filled := rows[lt.rowIndex := rows[lt.rowIndex][lt.cellIndex := c0.(content := ParagraphContent(c0.content).value + moved)]];
    forall i | 0 <= i < |rows| ensures |filled[i]| == |rows[i]| {
    }
    forall i | 0 <= i < |rows|
      ensures |Without(filled[i], RemovedIn(plan.merged, i))| == |rows[i]| - |Below(RemovedIn(plan.merged, i), |rows[i]|)|
    {
      WithoutMeaning(filled[i], RemovedIn(plan.merged, i));
    }
  }

  /**
   * After the scan, when no deleted cell precedes the top-left one in its
   * row, every cell that is neither deleted nor the top-left one keeps its
   * place in order.
   */
  lemma MergeApplyEffect(rows: Rows, lt: Desc, rb: Desc, plan: MergePlan)
    requires MergeApply(rows, lt, rb, plan).Ok? && TopLeftFirst(lt, plan.merged)
    ensures KeptInOrder(rows, MergeApply(rows, lt, rb, plan).value, plan.merged, lt)
  {
    MergeApplyShape(rows, lt, rb, plan);
    var r := MergeApply(rows, lt, rb, plan).value;
    var c0 := rows[lt.rowIndex][lt.cellIndex];
    var moved := MergedContent(rows, plan.merged, |plan.merged|).value;
    var filled := rows[lt.rowIndex := rows[lt.rowIndex][lt.cellIndex := c0.(content := ParagraphContent(c0.content).value + moved)]];
    var pruned := Prune(filled, plan.merged);
    forall i | 0 <= i < |rows|
      ensures RowKept(rows[i], r[i], RemovedIn(plan.merged, i), if i == lt.rowIndex then lt.cellIndex else -1)
    {
      var ks := RemovedIn(plan.merged, i);
      assert pruned[i] == Without(filled[i], ks);
      if i == lt.rowIndex {
        TopLeftStays(ks, lt, plan.merged, i);
        assert r[i] == pruned[i][lt.cellIndex := r[i][lt.cellIndex]];
        PrunedRow(rows[i], filled[i], r[i], ks, lt.cellIndex);
      } else {
        assert r[i] == pruned[i] && filled[i] == rows[i];
        PrunedRow(rows[i], filled[i], r[i], ks, -1);
      }
    }
  }

  /**
   * One row of the merge: `filled` differs from `row` at most at `hole`, and
   * the result differs from `Without(filled, ks)` at most there; the result
   * then holds every kept cell of `row` but the one at `hole`, in order.
   */
  lemma PrunedRow(row: seq<Cell>, filled: seq<Cell>, res: seq<Cell>, ks: set<int>, hole: int)
    requires |filled| == |row| && forall k :: 0 <= k < |row| && k != hole ==> filled[k] == row[k]
    requires hole == -1 || (0 <= hole < |row| && hole !in ks && Below(ks, hole) == {})
    requires |res| == |Without(filled, ks)|
    requires forall j :: 0 <= j < |res| && j != hole ==> res[j] == Without(filled, ks)[j]
    ensures |res| == |row| - |Below(ks, |row|)|
    ensures RowKept(row, res, ks, hole)
  {
    WithoutMeaning(filled, ks);
    forall k | 0 <= k < |row| && k !in ks && k != hole
      ensures k - |Below(ks, k)| != hole
    {
      if hole != -1 {
        if k < hole {
          BelowGap(ks, k, hole);
        } else {
          BelowGap(ks, hole, k);
        }
      }
    }
  }

  /** The top-left cell is not deleted and no deleted index of its row lies below it. */
  lemma TopLeftStays(ks: set<int>, lt: Desc, merged: seq<Desc>, i: int)
    requires i == lt.rowIndex && ks == RemovedIn(merged, i) && TopLeftFirst(lt, merged)
    ensures lt.cellIndex !in ks && Below(ks, lt.cellIndex) == {}
  {
    assert Below(ks, lt.cellIndex) == {};
  }

  /** Under the same conditions the top-left cell's new state. */
  lemma MergeApplyTopLeft(rows: Rows, lt: Desc, rb: Desc, plan: MergePlan)
    requires MergeApply(rows, lt, rb, plan).Ok? && TopLeftFirst(lt, plan.merged)
    ensures var r := MergeApply(rows, lt, rb, plan).value;
            && ValidCell(rows, lt.rowIndex, lt.cellIndex) && ValidCell(r, lt.rowIndex, lt.cellIndex)
            && var c0 := rows[lt.rowIndex][lt.cellIndex];
               && ParagraphContent(c0.content).Some? && MergedContent(rows, plan.merged, |plan.merged|).Ok?
               && r[lt.rowIndex][lt.cellIndex]
                  == MergedCell(c0, ParagraphContent(c0.content).value, MergedContent(rows, plan.merged, |plan.merged|).value, lt, rb)
  {
    MergeApplyShape(rows, lt, rb, plan);
    var c0 := rows[lt.rowIndex][lt.cellIndex];
    var moved := MergedContent(rows, plan.merged, |plan.merged|).value;
    var filled := rows[lt.rowIndex := rows[lt.rowIndex][lt.cellIndex := c0.(content := ParagraphContent(c0.content).value + moved)]];
    var ks := RemovedIn(plan.merged, lt.rowIndex);
    WithoutMeaning(filled[lt.rowIndex], ks);
    TopLeftStays(ks, lt, plan.merged, lt.rowIndex);
    assert Prune(filled, plan.merged)[lt.rowIndex][lt.cellIndex] == filled[lt.rowIndex][lt.cellIndex];
  }

  // ---------------------------------------------------------------------
  // The cell count
  // ---------------------------------------------------------------------

  /** No two merged cells sit at the same place of the same row. */
  predicate DistinctPlaces(merged: seq<Desc>)
  {
    forall a, b :: 0 <= a < b < |merged| ==>
      (merged[a].rowIndex, merged[a].cellIndex) != (merged[b].rowIndex, merged[b].cellIndex)
  }

  /** The number of deleted indexes over the first `n` rows. */
  function DeletedUpTo(merged: seq<Desc>, n: nat): nat
  {
    if n == 0 then 0 else DeletedUpTo(merged, n - 1) + |RemovedIn(merged, n - 1)|
  }

  lemma RemovedInAppend(merged: seq<Desc>, d: Desc, i: int)
    ensures RemovedIn(merged + [d], i) == RemovedIn(merged, i) + (if d.rowIndex == i then {d.cellIndex} else {})
  {
    var l, r := RemovedIn(merged + [d], i), RemovedIn(merged, i) + (if d.rowIndex == i then {d.cellIndex} else {});
    forall k | k in l ensures k in r {
      var x :| x in merged + [d] && x.rowIndex == i && x.cellIndex == k;
      if x != d {
        assert x in merged;
      }
    }
    forall k | k in r ensures k in l {
      if k !in RemovedIn(merged, i) {
        assert d in merged + [d];
      } else {
        var x :| x in merged && x.rowIndex == i && x.cellIndex == k;
        assert x in merged + [d];
      }
    }
  }

  /** One more merged cell, at a new place, adds one deleted index to its own row. */
  lemma {:induction false} DeletedStep(merged: seq<Desc>, d: Desc, n: nat)
    requires forall x :: x in merged ==> (x.rowIndex, x.cellIndex) != (d.rowIndex, d.cellIndex)
    ensures DeletedUpTo(merged + [d], n) == DeletedUpTo(merged, n) + (if 0 <= d.rowIndex < n then 1 else 0)
  {
    if n > 0 {
      DeletedStep(merged, d, n - 1);
      RemovedInAppend(merged, d, n - 1);
      if d.rowIndex == n - 1 {
        assert d.cellIndex !in RemovedIn(merged, n - 1);
      }
    }
  }

  /** Merged cells at distinct places in rows `0 .. n-1` give one deleted index each. */
  lemma {:induction false} DeletedCount(merged: seq<Desc>, n: nat)
    requires DistinctPlaces(merged) && forall x :: x in merged ==> 0 <= x.rowIndex < n
    ensures DeletedUpTo(merged, n) == |merged|
    decreases |merged|
  {
    if |merged| == 0 {
      DeletedNone(merged, n);
    } else {
      var m := |merged| - 1;
      var pre := merged[..m];
      assert merged == pre + [merged[m]];
      forall x | x in pre ensures (x.rowIndex, x.cellIndex) != (merged[m].rowIndex, merged[m].cellIndex) {
        var a :| 0 <= a < m && pre[a] == x;
        assert merged[a] == x;
      }
      DeletedCount(pre, n);
      DeletedStep(pre, merged[m], n);
    }
  }

  lemma {:induction false} DeletedNone(merged: seq<Desc>, n: nat)
    requires |merged| == 0
    ensures DeletedUpTo(merged, n) == 0
  {
    if n > 0 {
      DeletedNone(merged, n - 1);
      assert RemovedIn(merged, n - 1) == {};
    }
  }

  /** Rows that each lose their deleted indexes lose `DeletedUpTo` cells in all. */
  lemma {:induction false} TotalCellsPruned(rows: Rows, r: Rows, merged: seq<Desc>, n: nat)
    requires n <= |rows| == |r|
    requires forall i :: 0 <= i < n ==> |r[i]| == |rows[i]| - |RemovedIn(merged, i)|
    ensures TotalCells(r[..n]) == TotalCells(rows[..n]) - DeletedUpTo(merged, n)
  {
    if n > 0 {
      TotalCellsPruned(rows, r, merged, n - 1);
      assert r[..n][..n - 1] == r[..n - 1];
      assert rows[..n][..n - 1] == rows[..n - 1];
    }
  }

  /** Deleted indexes of cells that exist all lie inside their rows. */
  lemma InsideRows(rows: Rows, merged: seq<Desc>)
    requires forall d :: d in merged ==> ValidCell(rows, d.rowIndex, d.cellIndex)
    ensures forall i :: 0 <= i < |rows| ==> Below(RemovedIn(merged, i), |rows[i]|) == RemovedIn(merged, i)
  {
  }
}

// The same facts for the `mergeCells` command on a whole table.

module TableFactsMergeCommand {
  import opened Wrappers
  import opened Document
  import opened TableGrid
  import opened TableEditor
  import opened TableFactsMerge
  import opened TableFactsMergeEffect

  /** `mergeCells` gets past its early returns and goes through. */
  predicate Merges(t: TableValue, sel: SelectedCells)
  {
    && !(sel.row1 == sel.row2 && sel.col1 == sel.col2)
    && (sel.row1, sel.col1) in CellMap(t.rows) && (sel.row2, sel.col2) in CellMap(t.rows)
    && MergeSpec(t, sel).Ok?
  }

  /** The plan of a merge that goes through: the cells it absorbs, in scan order. */
  function Plan(t: TableValue, sel: SelectedCells): MergePlan
    requires Merges(t, sel)
  {
    var g := CellMap(t.rows);
    MergeScan(g, sel, g[(sel.row1, sel.col1)], Count(sel.row2 - sel.row1 + 1)).value
  }

  /** A merge that goes through is `MergeApply` of its plan on the table's rows. */
  lemma PlanApplies(t: TableValue, sel: SelectedCells)
    requires Merges(t, sel)
    ensures var g := CellMap(t.rows);
            var lt := g[(sel.row1, sel.col1)];
            var rb := g[(sel.row2, sel.col2)];
            && MergeApply(t.rows, lt, rb, Plan(t, sel)).Ok?
            && MergeSpec(t, sel).value == TableValue(MergeApply(t.rows, lt, rb, Plan(t, sel)).value, t.data)
  {
  }

  /** The cells a merge absorbs exist and sit at distinct places of the table. */
  lemma PlanPlaces(t: TableValue, sel: SelectedCells)
    requires Merges(t, sel)
    ensures DistinctPlaces(Plan(t, sel).merged)
    ensures forall d :: d in Plan(t, sel).merged ==> ValidCell(t.rows, d.rowIndex, d.cellIndex)
  {
    var g := CellMap(t.rows);
    var lt := g[(sel.row1, sel.col1)];
    var m := Plan(t, sel).merged;
    MergeScanMeaning(g, sel, lt, Count(sel.row2 - sel.row1 + 1));
    CellMapFacts(t.rows);
    forall a, b | 0 <= a < b < |m|
      ensures (m[a].rowIndex, m[a].cellIndex) != (m[b].rowIndex, m[b].cellIndex)
    {
      assert m[a] in m && m[b] in m;
      assert LexBefore(m[a].rowIndex, m[a].colIndex, m[b].rowIndex, m[b].colIndex);
    }
  }

  /** With no negative span, every cell a merge absorbs from the top-left cell's row comes after it. */
  lemma PlanTopLeft(t: TableValue, sel: SelectedCells)
    requires Merges(t, sel) && NoNegativeSpans(t.rows)
    ensures TopLeftFirst(CellMap(t.rows)[(sel.row1, sel.col1)], Plan(t, sel).merged)
  {
    var g := CellMap(t.rows);
    var lt := g[(sel.row1, sel.col1)];
    var m := Plan(t, sel).merged;
    MergeScanMeaning(g, sel, lt, Count(sel.row2 - sel.row1 + 1));
    CellMapFacts(t.rows);
    CellMapOrder(t.rows);
    forall d | d in m && d.rowIndex == lt.rowIndex ensures d.cellIndex > lt.cellIndex {
      assert Picked(g, lt, d);
      MergeCorners(t.rows, sel);
    }
  }

  /**
   * With no negative span, a merge deletes from each row exactly the cells
   * it absorbs and keeps every other cell in order: row `i` is shorter by the
   * absorbed cells of that row, and a kept cell at index `k` moves left by
   * the absorbed ones before it.
   */
  lemma MergeDeletesAbsorbed(t: TableValue, sel: SelectedCells)
    ensures Merges(t, sel) && NoNegativeSpans(t.rows) ==>
              var lt := CellMap(t.rows)[(sel.row1, sel.col1)];
              var m := Plan(t, sel).merged;
              var r := MergeSpec(t, sel).value.rows;
              && |r| == |t.rows|
              && (forall i :: 0 <= i < |t.rows| ==> |r[i]| == |t.rows[i]| - |RemovedIn(m, i)|)
              && KeptInOrder(t.rows, r, m, lt)
  {
    if Merges(t, sel) && NoNegativeSpans(t.rows) {
      var g := CellMap(t.rows);
      var lt, rb := g[(sel.row1, sel.col1)], g[(sel.row2, sel.col2)];
      var m := Plan(t, sel).merged;
      var r := MergeSpec(t, sel).value.rows;
      PlanApplies(t, sel);
      PlanPlaces(t, sel);
      PlanTopLeft(t, sel);
      assert r == MergeApply(t.rows, lt, rb, Plan(t, sel)).value;
      MergeApplyEffect(t.rows, lt, rb, Plan(t, sel));
      MergeApplyLengths(t.rows, lt, rb, Plan(t, sel));
      InsideRows(t.rows, m);
      forall i | 0 <= i < |t.rows| ensures |r[i]| == |t.rows[i]| - |RemovedIn(m, i)| {
        assert Below(RemovedIn(m, i), |t.rows[i]|) == RemovedIn(m, i);
      }
    }
  }

  /**
   * With no negative span, after a merge the top-left cell holds its old
   * children (an inline first child wrapped in a paragraph) followed by the
   * contributions of the absorbed cells in row-major order, and spans the
   * whole selection.
   */
  lemma MergeFillsTopLeft(t: TableValue, sel: SelectedCells)
    ensures Merges(t, sel) && NoNegativeSpans(t.rows) && sel.row1 <= sel.row2 && sel.col1 <= sel.col2 ==>
              var lt := CellMap(t.rows)[(sel.row1, sel.col1)];
              var m := Plan(t, sel).merged;
              var r := MergeSpec(t, sel).value.rows;
              && lt.rowIndex == sel.row1 && lt.colIndex == sel.col1
              && ValidCell(t.rows, lt.rowIndex, lt.cellIndex) && ValidCell(r, lt.rowIndex, lt.cellIndex)
              && var c0 := t.rows[lt.rowIndex][lt.cellIndex];
                 && ParagraphContent(c0.content).Some?
                 && r[lt.rowIndex][lt.cellIndex]
                    == c0.(content := ParagraphContent(c0.content).value + Concat(Contributions(t.rows, m, |m|)),
                           rowSpan := sel.row2 - sel.row1 + 1, colSpan := sel.col2 - sel.col1 + 1)
  {
    if Merges(t, sel) && NoNegativeSpans(t.rows) && sel.row1 <= sel.row2 && sel.col1 <= sel.col2 {
      var g := CellMap(t.rows);
      var lt, rb := g[(sel.row1, sel.col1)], g[(sel.row2, sel.col2)];
      var plan := Plan(t, sel);
      PlanApplies(t, sel);
      PlanTopLeft(t, sel);
      MergeScanMeaning(g, sel, lt, Count(sel.row2 - sel.row1 + 1));
      MergeCorners(t.rows, sel);
      MergeApplyTopLeft(t.rows, lt, rb, plan);
      MergedContentMeaning(t.rows, plan.merged, |plan.merged|);
    }
  }

  /** A merge removes exactly as many cells from the table as it absorbs. */
  lemma MergeCellCount(t: TableValue, sel: SelectedCells)
    ensures Merges(t, sel) ==> TotalCells(MergeSpec(t, sel).value.rows) == TotalCells(t.rows) - |Plan(t, sel).merged|
  {
    if Merges(t, sel) {
      var g := CellMap(t.rows);
      var plan := Plan(t, sel);
      var r := MergeSpec(t, sel).value.rows;
      PlanApplies(t, sel);
      PlanPlaces(t, sel);
      MergeApplyLengths(t.rows, g[(sel.row1, sel.col1)], g[(sel.row2, sel.col2)], plan);
      InsideRows(t.rows, plan.merged);
      forall i | 0 <= i < |t.rows| ensures |r[i]| == |t.rows[i]| - |RemovedIn(plan.merged, i)| {
        assert Below(RemovedIn(plan.merged, i), |t.rows[i]|) == RemovedIn(plan.merged, i);
      }
      TotalCellsPruned(t.rows, r, plan.merged, |t.rows|);
      assert r[..|t.rows|] == r && t.rows[..|t.rows|] == t.rows;
      DeletedCount(plan.merged, |t.rows|);
    }
  }
}
