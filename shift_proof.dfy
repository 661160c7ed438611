/**
  The row loop and the reconciliation loop of `insert_rows` (module Xl,
  functions Walk and Reconciled) end in the sheet the closed form of module
  ShiftSpec describes. The proof follows the walk's cursor: one column, one
  source row, then the whole walk, then the reconciliation of the original
  ranges. Row records, column records, used bounds and the merge list follow
  the closed form for any well-formed ranges; the cells do when the ranges
  are also disjoint.
 */
module ShiftProof {
  import opened Cells
  import opened Merges
  import opened Worksheet
  import opened ShiftSpec
  import opened Xl

  /**
    The walk at cursor (row, col): layout and merge list as ShiftSpec says,
    and the cells too when the original ranges are disjoint.
   */
  ghost predicate WalkAt(ins: Insertion, s: SheetData, row: int, col: nat)
    requires row >= -1
  {
    var xs := Registered(ins, row, col);
    (DisjointRanges(ins) ==> CellsAt(ins, s.rows, row, col, xs)) &&
    LayoutAt(ins, s, row, col, xs) && s.merges == MergesAfter(ins, row, col)
  }

  /** The range found at (row, col), if any, is well formed. */
  predicate FoundWellFormed(ms: seq<MergeRange>, row: nat, col: nat)
  {
    FindMerge(ms, row, col).Some? ==> FindMerge(ms, row, col).value.WellFormed()
  }

  /**
    Registering the range anchored at a copied cell `amount` rows down blanks
    the cells of the moved range and leaves every other cell alone.
   */
  lemma MergeCopiedCellAt(s: SheetData, d: Defaults, amount: nat, row: nat, col: nat, r: nat, c: nat)
    requires !IsSkipCell(s.merges, row, col) && FoundWellFormed(s.merges, row, col)
    ensures var fill := FillOf(s.merges, row, col, amount);
      GetCell(MergeCopied(s, d, amount, row, col).rows, r, c) ==
        if fill.Some? && fill.value.Contains(r, c) then Some(Cell(Blank, d.xf)) else GetCell(s.rows, r, c)
  {
    var m := FindMerge(s.merges, row, col);
    if m.Some? {
      MergeWrittenEffect(s, m.value.Shifted(amount), d);
    }
  }

  /**
    Registering the range anchored at a copied cell creates the records of
    the moved range's rows, each with the height it reads, and leaves every
    other row record alone: no row reads a different height.
   */
  lemma MergeCopiedHeightAt(s: SheetData, d: Defaults, amount: nat, row: nat, col: nat, r: nat)
    requires !IsSkipCell(s.merges, row, col) && FoundWellFormed(s.merges, row, col)
    ensures var fill := FillOf(s.merges, row, col, amount);
      var s1 := MergeCopied(s, d, amount, row, col);
      RowHeightAt(s1.rows, r) ==
        (if fill.Some? && fill.value.r1 <= r <= fill.value.r2 then Some(HeightOf(s.rows, r, d)) else RowHeightAt(s.rows, r)) &&
      HeightOf(s1.rows, r, d) == HeightOf(s.rows, r, d)
  {
    var m := FindMerge(s.merges, row, col);
    if m.Some? {
      MergeWrittenEffect(s, m.value.Shifted(amount), d);
    }
  }

  /** Registering the range anchored at a copied cell: column records, bounds and merge list. */
  lemma MergeCopiedLayout(s: SheetData, d: Defaults, amount: nat, row: nat, col: nat)
    requires !IsSkipCell(s.merges, row, col) && FoundWellFormed(s.merges, row, col)
    ensures var s1 := MergeCopied(s, d, amount, row, col);
      var fill := FillOf(s.merges, row, col, amount);
      s1.cols == s.cols && s1.lastRow == Max(s.lastRow, Bottom(fill)) && s1.lastCol == Max(s.lastCol, Right(fill)) &&
      s1.merges == s.merges + Listed(fill)
  {
    var m := FindMerge(s.merges, row, col);
    if m.Some? {
      MergeWrittenEffect(s, m.value.Shifted(amount), d);
    }
  }

  /**
    One cell after a column step: the copied cell lands `amount` rows down in
    the style of its source, and the rest of the moved range is blank.
   */
  lemma ColumnStepCellAt(s: SheetData, d: Defaults, snapshot: map<nat, Row>, amount: nat, row: nat, col: nat, r: nat, c: nat)
    requires amount >= 1
    requires !IsSkipCell(s.merges, row, col) && FoundWellFormed(s.merges, row, col)
    ensures GetCell(ColumnStep(s, d, snapshot, amount, row, col).rows, r, c) ==
      if r == row + amount && c == col then Some(Cell(SnapshotValue(snapshot, row, col), StyleAt(s.rows, row, col, d)))
      else if FillBlanks(FillOf(s.merges, row, col, amount), r, c) then Some(Cell(Blank, d.xf))
      else GetCell(s.rows, r, c)
  {
    var s1 := MergeCopied(s, d, amount, row, col);
    if FindMerge(s.merges, row, col).Some? {
      NotSkippedIsAnchor(s.merges, row, col);
    }
    SetValueCellAt(s1, d, row + amount, col, SnapshotValue(snapshot, row, col), Some(row), Some(col), r, c);
    MergeCopiedCellAt(s, d, amount, row, col, row, col);
    MergeCopiedCellAt(s, d, amount, row, col, r, c);
  }

  /** The cells of a column step: the copied cell lands `amount` rows down, the rest of the moved range is blank. */
  lemma ColumnStepCells(s: SheetData, d: Defaults, snapshot: map<nat, Row>, amount: nat, row: nat, col: nat)
    requires amount >= 1 && FoundWellFormed(s.merges, row, col)
    ensures CellsCopied(s.rows, ColumnStep(s, d, snapshot, amount, row, col).rows, row, col, amount,
                        SnapshotValue(snapshot, row, col), d, !IsSkipCell(s.merges, row, col), FillOf(s.merges, row, col, amount))
  {
    if !IsSkipCell(s.merges, row, col) {
      forall r: nat, c: nat
        ensures GetCell(ColumnStep(s, d, snapshot, amount, row, col).rows, r, c) ==
          if r == row + amount && c == col then Some(Cell(SnapshotValue(snapshot, row, col), StyleAt(s.rows, row, col, d)))
          else if FillBlanks(FillOf(s.merges, row, col, amount), r, c) then Some(Cell(Blank, d.xf))
          else GetCell(s.rows, r, c)
      {
        ColumnStepCellAt(s, d, snapshot, amount, row, col, r, c);
      }
    }
  }

  /**
    One row record after a column step: source and destination rows exist,
    the destination with the source's height; the other rows of the moved
    range exist with the height they read.
   */
  lemma ColumnStepHeightAt(s: SheetData, d: Defaults, snapshot: map<nat, Row>, amount: nat, row: nat, col: nat, r: nat)
    requires amount >= 1
    requires !IsSkipCell(s.merges, row, col) && FoundWellFormed(s.merges, row, col)
    ensures var h := HeightOf(s.rows, row, d);
      RowHeightAt(ColumnStep(s, d, snapshot, amount, row, col).rows, r) ==
        if r == row + amount then Some(if h != 0 then h else HeightOf(s.rows, row + amount, d))
        else if r == row then Some(h)
        else if FillRow(FillOf(s.merges, row, col, amount), r) then Some(HeightOf(s.rows, r, d))
        else RowHeightAt(s.rows, r)
  {
    var s1 := MergeCopied(s, d, amount, row, col);
    if FindMerge(s.merges, row, col).Some? {
      NotSkippedIsAnchor(s.merges, row, col);
    }
    MergeCopiedHeightAt(s, d, amount, row, col, row);
    MergeCopiedHeightAt(s, d, amount, row, col, row + amount);
    SetValueHeightAt(s1, d, row + amount, col, SnapshotValue(snapshot, row, col), Some(row), Some(col), r);
    MergeCopiedHeightAt(s, d, amount, row, col, r);
  }

  /** The row records of a column step. */
  lemma ColumnStepHeights(s: SheetData, d: Defaults, snapshot: map<nat, Row>, amount: nat, row: nat, col: nat)
    requires amount >= 1 && FoundWellFormed(s.merges, row, col)
    ensures HeightsCopied(s.rows, ColumnStep(s, d, snapshot, amount, row, col).rows, row, amount, d,
                          !IsSkipCell(s.merges, row, col), FillOf(s.merges, row, col, amount))
  {
    if !IsSkipCell(s.merges, row, col) {
      var h := HeightOf(s.rows, row, d);
      var fill := FillOf(s.merges, row, col, amount);
      forall r: nat
        ensures RowHeightAt(ColumnStep(s, d, snapshot, amount, row, col).rows, r) ==
          if r == row + amount then Some(if h != 0 then h else HeightOf(s.rows, row + amount, d))
          else if r == row then Some(h)
          else if FillRow(fill, r) then Some(HeightOf(s.rows, r, d))
          else RowHeightAt(s.rows, r)
      {
        ColumnStepHeightAt(s, d, snapshot, amount, row, col, r);
      }
    }
  }

  /** Column records after a column step: a copied cell's column gets a record with the width it reads. */
  lemma ColumnStepWidths(s: SheetData, d: Defaults, snapshot: map<nat, Row>, amount: nat, row: nat, col: nat)
    requires amount >= 1 && FoundWellFormed(s.merges, row, col)
    ensures WidthsCopied(s.cols, ColumnStep(s, d, snapshot, amount, row, col).cols, col, d, !IsSkipCell(s.merges, row, col))
  {
    if !IsSkipCell(s.merges, row, col) {
      var s1 := MergeCopied(s, d, amount, row, col);
      MergeCopiedLayout(s, d, amount, row, col);
      SetValueWidthsEffect(s1, d, row + amount, col, SnapshotValue(snapshot, row, col), Some(row), Some(col));
    }
  }

  /**
    Used bounds after a column step: a copied cell extends them to its source
    and destination, and to the bottom row and right column of the range it
    moves.
   */
  lemma ColumnStepBounds(s: SheetData, d: Defaults, snapshot: map<nat, Row>, amount: nat, row: nat, col: nat)
    requires amount >= 1 && FoundWellFormed(s.merges, row, col)
    ensures var post := ColumnStep(s, d, snapshot, amount, row, col);
      var copy := !IsSkipCell(s.merges, row, col);
      var fill := FillOf(s.merges, row, col, amount);
      post.lastRow == (if copy then Max(Max(Max(s.lastRow, Bottom(fill)), row), row + amount) else s.lastRow) &&
      post.lastCol == (if copy then Max(Max(s.lastCol, Right(fill)), col) else s.lastCol)
  {
    if !IsSkipCell(s.merges, row, col) {
      var s1 := MergeCopied(s, d, amount, row, col);
      MergeCopiedLayout(s, d, amount, row, col);
      SetValueWidthsEffect(s1, d, row + amount, col, SnapshotValue(snapshot, row, col), Some(row), Some(col));
    }
  }

  /** The merge list after a column step: the range a copied anchor opens is registered `amount` rows down. */
  lemma ColumnStepMergeList(s: SheetData, d: Defaults, snapshot: map<nat, Row>, amount: nat, row: nat, col: nat)
    requires amount >= 1 && FoundWellFormed(s.merges, row, col)
    ensures ColumnStep(s, d, snapshot, amount, row, col).merges == s.merges + Listed(FillOf(s.merges, row, col, amount))
  {
    if !IsSkipCell(s.merges, row, col) {
      var s1 := MergeCopied(s, d, amount, row, col);
      MergeCopiedLayout(s, d, amount, row, col);
      SetValueWidthsEffect(s1, d, row + amount, col, SnapshotValue(snapshot, row, col), Some(row), Some(col));
    } else {
      assert Listed(FillOf(s.merges, row, col, amount)) == [];
    }
  }

  /**
    On the live merge list of the walk at (row, col), the lookup at (row, col)
    sees only the original ranges: every range registered so far starts below
    row. What it finds is well formed when the original ranges are.
   */
  lemma LiveLookup(ins: Insertion, s: SheetData, row: nat, col: nat)
    requires ins.amount >= 1 && row <= ins.before.lastRow
    requires s.merges == MergesAfter(ins, row, col)
    ensures FindMerge(s.merges, row, col) == FindMerge(ins.before.merges, row, col)
    ensures IsSkipCell(s.merges, row, col) == IsSkipCell(ins.before.merges, row, col)
    ensures FillOf(s.merges, row, col, ins.amount) == FillAt(ins, row, col)
    ensures AllWellFormed(ins.before.merges) ==> FoundWellFormed(s.merges, row, col)
  {
    RegisteredBelow(ins, row, col);
    FindMergeIgnoresLowerRanges(ins.before.merges, Registered(ins, row, col), row, col);
    if FindMerge(ins.before.merges, row, col).Some? {
      FindMergeIn(ins.before.merges, row, col);
    }
  }

  /** The cells of the walk move from cursor (row, col) to (row, col + 1). */
  lemma ColumnStepCellsWalk(ins: Insertion, s: SheetData, row: nat, col: nat)
    requires ins.amount >= 1 && row <= ins.before.lastRow && col <= ins.before.lastCol
    requires DisjointRanges(ins)
    requires s.merges == MergesAfter(ins, row, col)
    requires CellsAt(ins, s.rows, row, col, Registered(ins, row, col))
    ensures CellsAt(ins, ColumnStep(s, ins.defaults, ins.before.rows, ins.amount, row, col).rows, row, col + 1, Registered(ins, row, col + 1))
  {
    LiveLookup(ins, s, row, col);
    ColumnStepCells(s, ins.defaults, ins.before.rows, ins.amount, row, col);
    RegisteredBelow(ins, row, col);
    MergeBlankStep(ins, row, col, col + 1);
    CellsCopyStep(ins, s.rows, ColumnStep(s, ins.defaults, ins.before.rows, ins.amount, row, col).rows, row, col, col + 1,
                  Registered(ins, row, col), Registered(ins, row, col + 1));
  }

  /** The row records of the walk move from cursor (row, col) to (row, col + 1). */
  lemma ColumnStepHeightsWalk(ins: Insertion, s: SheetData, row: nat, col: nat)
    requires ins.amount >= 1 && row <= ins.before.lastRow && col <= ins.before.lastCol
    requires AllWellFormed(ins.before.merges)
    requires s.merges == MergesAfter(ins, row, col)
    requires HeightsAt(ins, s.rows, row, col, Registered(ins, row, col))
    ensures HeightsAt(ins, ColumnStep(s, ins.defaults, ins.before.rows, ins.amount, row, col).rows, row, col + 1, Registered(ins, row, col + 1))
  {
    LiveLookup(ins, s, row, col);
    ColumnStepHeights(s, ins.defaults, ins.before.rows, ins.amount, row, col);
    MergeRowStep(ins, row, col, col + 1);
    HeightsCopyStep(ins, s.rows, ColumnStep(s, ins.defaults, ins.before.rows, ins.amount, row, col).rows, row, col, col + 1,
                    Registered(ins, row, col), Registered(ins, row, col + 1));
  }

  /** The column records of the walk move from cursor (row, col) to (row, col + 1). */
  lemma ColumnStepWidthsWalk(ins: Insertion, s: SheetData, row: nat, col: nat)
    requires ins.amount >= 1 && row <= ins.before.lastRow && col <= ins.before.lastCol
    requires AllWellFormed(ins.before.merges)
    requires s.merges == MergesAfter(ins, row, col)
    requires WidthsAt(ins, s.cols, row, col)
    ensures WidthsAt(ins, ColumnStep(s, ins.defaults, ins.before.rows, ins.amount, row, col).cols, row, col + 1)
  {
    LiveLookup(ins, s, row, col);
    ColumnStepWidths(s, ins.defaults, ins.before.rows, ins.amount, row, col);
    WidthsCopyStep(ins, s.cols, ColumnStep(s, ins.defaults, ins.before.rows, ins.amount, row, col).cols, row, col, col + 1);
  }

  /** The last used row of the walk moves from cursor (row, col) to (row, col + 1). */
  lemma ColumnStepLastRowWalk(ins: Insertion, s: SheetData, row: nat, col: nat)
    requires ins.amount >= 1 && row <= ins.before.lastRow && col <= ins.before.lastCol
    requires AllWellFormed(ins.before.merges)
    requires s.merges == MergesAfter(ins, row, col)
    requires IsLastRowAfter(ins, row, col, Registered(ins, row, col), s.lastRow)
    ensures IsLastRowAfter(ins, row, col + 1, Registered(ins, row, col + 1),
                           ColumnStep(s, ins.defaults, ins.before.rows, ins.amount, row, col).lastRow)
  {
    var xs := Registered(ins, row, col);
    var fill := FillAt(ins, row, col);
    var v := Max(s.lastRow, Bottom(fill));
    var post := ColumnStep(s, ins.defaults, ins.before.rows, ins.amount, row, col);
    assert post.lastRow == if !IsSkipCell(ins.before.merges, row, col) then Max(Max(v, row), row + ins.amount) else v by {
      LiveLookup(ins, s, row, col);
      ColumnStepBounds(s, ins.defaults, ins.before.rows, ins.amount, row, col);
    }
    assert IsLastRowAfter(ins, row, col, xs + Listed(fill), v) by {
      LastRowFillStep(ins, row, col, xs, fill, s.lastRow);
    }
    RegisteredStep(ins, row, col, col + 1);
    LastRowCopyStep(ins, xs + Listed(fill), v, post.lastRow, row, col, col + 1);
  }

  /** The last used column of the walk moves from cursor (row, col) to (row, col + 1). */
  lemma ColumnStepLastColWalk(ins: Insertion, s: SheetData, row: nat, col: nat)
    requires ins.amount >= 1 && row <= ins.before.lastRow && col <= ins.before.lastCol
    requires AllWellFormed(ins.before.merges)
    requires s.merges == MergesAfter(ins, row, col)
    requires IsLastColAfter(ins, Registered(ins, row, col), s.lastCol)
    ensures IsLastColAfter(ins, Registered(ins, row, col + 1), ColumnStep(s, ins.defaults, ins.before.rows, ins.amount, row, col).lastCol)
  {
    var xs := Registered(ins, row, col);
    var fill := FillAt(ins, row, col);
    LiveLookup(ins, s, row, col);
    RegisteredStep(ins, row, col, col + 1);
    ColumnStepBounds(s, ins.defaults, ins.before.rows, ins.amount, row, col);
    LastColFillStep(ins, xs, fill, s.lastCol);
  }

  /** The merge list of the walk moves from cursor (row, col) to (row, col + 1). */
  lemma ColumnStepMergesWalk(ins: Insertion, s: SheetData, row: nat, col: nat)
    requires ins.amount >= 1 && row <= ins.before.lastRow
    requires AllWellFormed(ins.before.merges)
    requires s.merges == MergesAfter(ins, row, col)
    ensures ColumnStep(s, ins.defaults, ins.before.rows, ins.amount, row, col).merges == MergesAfter(ins, row, col + 1)
  {
    LiveLookup(ins, s, row, col);
    ColumnStepMergeList(s, ins.defaults, ins.before.rows, ins.amount, row, col);
    RegisteredStep(ins, row, col, col + 1);
    var g := ins.before.merges;
    assert g + Registered(ins, row, col) + Listed(FillAt(ins, row, col)) == g + (Registered(ins, row, col) + Listed(FillAt(ins, row, col)));
  }

  /** ColumnStep on the live sheet moves the walk's cursor from (row, col) to (row, col + 1). */
  lemma ColumnStepWalk(ins: Insertion, s: SheetData, row: nat, col: nat)
    requires ins.amount >= 1 && row <= ins.before.lastRow && col <= ins.before.lastCol
    requires AllWellFormed(ins.before.merges)
    requires WalkAt(ins, s, row, col)
    ensures WalkAt(ins, ColumnStep(s, ins.defaults, ins.before.rows, ins.amount, row, col), row, col + 1)
  {
    if DisjointRanges(ins) {
      ColumnStepCellsWalk(ins, s, row, col);
    }
    ColumnStepHeightsWalk(ins, s, row, col);
    ColumnStepWidthsWalk(ins, s, row, col);
    ColumnStepLastRowWalk(ins, s, row, col);
    ColumnStepLastColWalk(ins, s, row, col);
    ColumnStepMergesWalk(ins, s, row, col);
  }

  /** The column loop over columns 0..n-1 moves the cursor from (row, 0) to (row, n). */
  lemma {:induction false} ColumnsWalk(ins: Insertion, s: SheetData, row: nat, n: nat)
    requires ins.amount >= 1 && row <= ins.before.lastRow && n <= ins.before.lastCol + 1
    requires AllWellFormed(ins.before.merges)
    requires WalkAt(ins, s, row, 0)
    ensures WalkAt(ins, ColumnsCopied(s, ins.defaults, ins.before.rows, ins.amount, row, n), row, n)
  {
    if n > 0 {
      ColumnsWalk(ins, s, row, n - 1);
      ColumnsWalkStep(ins, s, ColumnsCopied(s, ins.defaults, ins.before.rows, ins.amount, row, n - 1), row, n);
    }
  }

  /** The inductive step of ColumnsWalk, with the sheet before the last column named `pre`. */
  lemma ColumnsWalkStep(ins: Insertion, s: SheetData, pre: SheetData, row: nat, n: nat)
    requires ins.amount >= 1 && row <= ins.before.lastRow && 0 < n <= ins.before.lastCol + 1
    requires AllWellFormed(ins.before.merges)
    requires pre == ColumnsCopied(s, ins.defaults, ins.before.rows, ins.amount, row, n - 1)
    requires WalkAt(ins, pre, row, n - 1)
    ensures WalkAt(ins, ColumnsCopied(s, ins.defaults, ins.before.rows, ins.amount, row, n), row, n)
  {
    ColumnStepWalk(ins, pre, row, n - 1);
  }

  /** Blanking columns 0..k of an existing row record and then giving it height h changes only that row. */
  lemma BlankRowEffect(rows: map<nat, Row>, r: nat, k: nat, xf: int, h: int)
    requires r in rows
    ensures var blanked := rows[r := rows[r].(cells := BlankRun(rows[r].cells, 0, k, xf))];
      var rows' := blanked[r := Row(h, CellsOf(blanked, r))];
      (forall r': nat, c: nat :: GetCell(rows', r', c) == if r' == r && c <= k then Some(Cell(Blank, xf)) else GetCell(rows, r', c)) &&
      (forall r': nat :: RowHeightAt(rows', r') == if r' == r then Some(h) else RowHeightAt(rows, r'))
  {
    BlankRunEffect(rows[r].cells, 0, k, xf);
  }

  /** Blanking source row `row` after all its columns moves the cursor to (prev, 0). */
  lemma BlankRowWalk(ins: Insertion, pre: SheetData, row: nat, prev: int)
    requires ins.amount >= 1 && row <= ins.before.lastRow && row in pre.rows && prev + 1 == row
    requires WalkAt(ins, pre, row, ins.before.lastCol + 1)
    ensures WalkAt(ins, RowHeightSet(BlanksWritten(pre, row, 0, ins.before.lastCol, ins.defaults.xf), row, ClearedRowHeight), prev, 0)
  {
    BlankRowCells(ins, pre, row, prev);
    BlankRowLayout(ins, pre, row, prev);
  }

  /** The cell half of BlankRowWalk. */
  lemma BlankRowCells(ins: Insertion, pre: SheetData, row: nat, prev: int)
    requires ins.amount >= 1 && row <= ins.before.lastRow && row in pre.rows && prev + 1 == row
    requires WalkAt(ins, pre, row, ins.before.lastCol + 1)
    ensures var after := RowHeightSet(BlanksWritten(pre, row, 0, ins.before.lastCol, ins.defaults.xf), row, ClearedRowHeight);
      DisjointRanges(ins) ==> CellsAt(ins, after.rows, prev, 0, Registered(ins, prev, 0))
  {
    RegisteredBelow(ins, row, ins.before.lastCol + 1);
    BlankStep(ins, row, prev, Registered(ins, row, ins.before.lastCol + 1));
    BlankRowEffect(pre.rows, row, ins.before.lastCol, ins.defaults.xf, ClearedRowHeight);
  }

  /** The layout half of BlankRowWalk. */
  lemma BlankRowLayout(ins: Insertion, pre: SheetData, row: nat, prev: int)
    requires ins.amount >= 1 && row <= ins.before.lastRow && row in pre.rows && prev + 1 == row
    requires WalkAt(ins, pre, row, ins.before.lastCol + 1)
    ensures var after := RowHeightSet(BlanksWritten(pre, row, 0, ins.before.lastCol, ins.defaults.xf), row, ClearedRowHeight);
      LayoutAt(ins, after, prev, 0, Registered(ins, prev, 0)) && after.merges == MergesAfter(ins, prev, 0)
  {
    RegisteredBelow(ins, row, ins.before.lastCol + 1);
    BlankStep(ins, row, prev, Registered(ins, row, ins.before.lastCol + 1));
    BlankRowEffect(pre.rows, row, ins.before.lastCol, ins.defaults.xf, ClearedRowHeight);
  }

  /**
    One iteration of the row loop fails exactly when a cell it does not skip
    lies outside the read-back sheet, or the row has no record and no column
    of it is copied.
   */
  lemma RowStepDefined(ins: Insertion, s: SheetData, row: nat)
    requires ins.amount >= 1 && row <= ins.before.lastRow
    requires AllWellFormed(ins.before.merges)
    requires WalkAt(ins, s, row, 0)
    ensures RowShifted(s, ins.defaults, ins.before.rows, ins.size, ins.amount, ins.before.lastCol, row).Some? <==>
      RowCompletes(ins, row)
  {
    var k := ins.before.lastCol;
    var copied := ColumnsCopied(s, ins.defaults, ins.before.rows, ins.amount, row, k + 1);
    ColumnsReadWalk(ins, s, row, k + 1);
    ColumnsHeights(ins, s, row);
    RowAddressableAfterColumns(ins, s, copied, row);
  }

  /**
    The reads of the column loop over columns 0..n-1 all succeed exactly when
    every cell among them that the original ranges do not skip can be read
    back: the skip test on the live list agrees with the original one.
   */
  lemma {:induction false} ColumnsReadWalk(ins: Insertion, s: SheetData, row: nat, n: nat)
    requires ins.amount >= 1 && row <= ins.before.lastRow && n <= ins.before.lastCol + 1
    requires AllWellFormed(ins.before.merges)
    requires WalkAt(ins, s, row, 0)
    ensures ColumnsRead(s, ins.defaults, ins.before.rows, ins.size, ins.amount, row, n) <==>
      forall c: nat :: c < n && !IsSkipCell(ins.before.merges, row, c) ==> Readable(ins.size, row, c)
  {
    if n > 0 {
      ColumnsReadWalk(ins, s, row, n - 1);
      ColumnsMerges(ins, s, row, n - 1);
      ColumnsReadStep(ins, s, ColumnsCopied(s, ins.defaults, ins.before.rows, ins.amount, row, n - 1), row, n);
    }
  }

  /** The merge list once the column loop has done columns 0..n-1, as ColumnsWalk gives it. */
  lemma ColumnsMerges(ins: Insertion, s: SheetData, row: nat, n: nat)
    requires ins.amount >= 1 && row <= ins.before.lastRow && n <= ins.before.lastCol + 1
    requires AllWellFormed(ins.before.merges)
    requires WalkAt(ins, s, row, 0)
    ensures ColumnsCopied(s, ins.defaults, ins.before.rows, ins.amount, row, n).merges == MergesAfter(ins, row, n)
  {
    ColumnsWalk(ins, s, row, n);
  }

  /** The inductive step of ColumnsReadWalk, with the sheet before the last column named `pre`. */
  lemma ColumnsReadStep(ins: Insertion, s: SheetData, pre: SheetData, row: nat, n: nat)
    requires ins.amount >= 1 && row <= ins.before.lastRow && 0 < n
    requires pre == ColumnsCopied(s, ins.defaults, ins.before.rows, ins.amount, row, n - 1)
    requires pre.merges == MergesAfter(ins, row, n - 1)
    requires ColumnsRead(s, ins.defaults, ins.before.rows, ins.size, ins.amount, row, n - 1) <==>
      forall c: nat :: c < n - 1 && !IsSkipCell(ins.before.merges, row, c) ==> Readable(ins.size, row, c)
    ensures ColumnsRead(s, ins.defaults, ins.before.rows, ins.size, ins.amount, row, n) <==>
      forall c: nat :: c < n && !IsSkipCell(ins.before.merges, row, c) ==> Readable(ins.size, row, c)
  {
    LiveLookup(ins, pre, row, n - 1);
  }

  /** The row records once the column loop of `row` is done, as ColumnsWalk gives them. */
  lemma ColumnsHeights(ins: Insertion, s: SheetData, row: nat)
    requires ins.amount >= 1 && row <= ins.before.lastRow
    requires AllWellFormed(ins.before.merges)
    requires WalkAt(ins, s, row, 0)
    ensures var k := ins.before.lastCol;
      HeightsAt(ins, ColumnsCopied(s, ins.defaults, ins.before.rows, ins.amount, row, k + 1).rows, row, k + 1, Registered(ins, row, k + 1))
  {
    ColumnsWalk(ins, s, row, ins.before.lastCol + 1);
  }

  /** The record lookup of RowStepDefined, with the sheet after the column loop named `copied`. */
  lemma RowAddressableAfterColumns(ins: Insertion, s: SheetData, copied: SheetData, row: nat)
    requires ins.amount >= 1 && row <= ins.before.lastRow
    requires copied == ColumnsCopied(s, ins.defaults, ins.before.rows, ins.amount, row, ins.before.lastCol + 1)
    requires HeightsAt(ins, copied.rows, row, ins.before.lastCol + 1, Registered(ins, row, ins.before.lastCol + 1))
    ensures row in copied.rows <==> row in ins.before.rows || HasCopy(ins, row)
  {
    var k := ins.before.lastCol;
    RegisteredBelow(ins, row, k + 1);
    RowAddressable(ins, copied.rows, row, k + 1, Registered(ins, row, k + 1));
  }

  /** One iteration of the row loop, when it succeeds, moves the cursor from (row, 0) to (row - 1, 0). */
  lemma RowStepWalk(ins: Insertion, s: SheetData, row: nat)
    requires ins.amount >= 1 && row <= ins.before.lastRow
    requires AllWellFormed(ins.before.merges)
    requires WalkAt(ins, s, row, 0)
    ensures var r := RowShifted(s, ins.defaults, ins.before.rows, ins.size, ins.amount, ins.before.lastCol, row);
      r.Some? ==> WalkAt(ins, r.value, row - 1, 0)
  {
    var k := ins.before.lastCol;
    var copied := ColumnsCopied(s, ins.defaults, ins.before.rows, ins.amount, row, k + 1);
    ColumnsWalk(ins, s, row, k + 1);
    RowBlankWalk(ins, copied, RowShifted(s, ins.defaults, ins.before.rows, ins.size, ins.amount, k, row), row);
  }

  /**
    The second half of RowStepWalk, with the sheet after the column loop named
    `copied` and the outcome of the row step `r`.
   */
  lemma RowBlankWalk(ins: Insertion, copied: SheetData, r: Option<SheetData>, row: nat)
    requires ins.amount >= 1 && row <= ins.before.lastRow
    requires WalkAt(ins, copied, row, ins.before.lastCol + 1)
    requires r.Some? ==>
      (row in copied.rows &&
       r.value == RowHeightSet(BlanksWritten(copied, row, 0, ins.before.lastCol, ins.defaults.xf), row, ClearedRowHeight))
    ensures r.Some? ==> WalkAt(ins, r.value, row - 1, 0)
  {
    if r.Some? {
      BlankRowWalk(ins, copied, row, row - 1);
    }
  }

  /** The walk gets through every source row below `row`. */
  ghost predicate CompletesBelow(ins: Insertion, row: int)
  {
    forall r: nat :: row < r <= ins.before.lastRow ==> RowCompletes(ins, r)
  }

  /** CompletesBelow, one source row at a time. */
  lemma CompletesBelowStep(ins: Insertion, row: int)
    requires -1 <= row < ins.before.lastRow
    ensures CompletesBelow(ins, row) <==> CompletesBelow(ins, row + 1) && RowCompletes(ins, row + 1)
  {
    if CompletesBelow(ins, row + 1) && RowCompletes(ins, row + 1) {
      forall r: nat | row < r <= ins.before.lastRow ensures RowCompletes(ins, r) {
        if r > row + 1 {
          assert row + 1 < r <= ins.before.lastRow;
        }
      }
    }
  }

  /** The row loop run down to `row` + 1, when it succeeds, leaves the walk at cursor (row, 0). */
  lemma {:induction false} WalkGrid(ins: Insertion, row: int)
    requires ins.amount >= 1 && row >= -1
    requires AllWellFormed(ins.before.merges)
    ensures var w := Walk(ins.before, ins.defaults, ins.size, ins.amount, row);
      w.Some? ==> WalkAt(ins, w.value, row, 0)
    decreases ins.before.lastRow - row
  {
    var g := ins.before;
    if row >= g.lastRow {
      WalkNotStarted(ins, row);
      assert g.merges == g.merges + [];
    } else {
      WalkGrid(ins, row + 1);
      WalkGridStep(ins, row);
    }
  }

  /** The inductive step of WalkGrid: one more row of the loop keeps the walk in step. */
  lemma WalkGridStep(ins: Insertion, row: int)
    requires ins.amount >= 1 && -1 <= row < ins.before.lastRow
    requires AllWellFormed(ins.before.merges)
    requires var w := Walk(ins.before, ins.defaults, ins.size, ins.amount, row + 1);
      w.Some? ==> WalkAt(ins, w.value, row + 1, 0)
    ensures var w := Walk(ins.before, ins.defaults, ins.size, ins.amount, row);
      w.Some? ==> WalkAt(ins, w.value, row, 0)
  {
    var w := Walk(ins.before, ins.defaults, ins.size, ins.amount, row + 1);
    if w.Some? {
      RowStepWalk(ins, w.value, row + 1);
    }
  }

  /**
    The row loop run down to `row` + 1 succeeds exactly when it gets through
    every source row below `row`.
   */
  lemma {:induction false} WalkDefined(ins: Insertion, row: int)
    requires ins.amount >= 1 && row >= -1
    requires AllWellFormed(ins.before.merges)
    ensures Walk(ins.before, ins.defaults, ins.size, ins.amount, row).Some? <==> CompletesBelow(ins, row)
    decreases ins.before.lastRow - row
  {
    var g := ins.before;
    if row < g.lastRow {
      WalkDefined(ins, row + 1);
      CompletesBelowStep(ins, row);
      WalkDefinedStep(ins, row);
    }
  }

  /** The inductive step of WalkDefined: one more row of the loop succeeds exactly when the walk gets through that row. */
  lemma WalkDefinedStep(ins: Insertion, row: int)
    requires ins.amount >= 1 && -1 <= row < ins.before.lastRow
    requires AllWellFormed(ins.before.merges)
    ensures Walk(ins.before, ins.defaults, ins.size, ins.amount, row).Some? <==>
      Walk(ins.before, ins.defaults, ins.size, ins.amount, row + 1).Some? && RowCompletes(ins, row + 1)
  {
    WalkGrid(ins, row + 1);
    var w := Walk(ins.before, ins.defaults, ins.size, ins.amount, row + 1);
    if w.Some? {
      RowStepDefined(ins, w.value, row + 1);
    }
  }

  /** Kept and Grown of one more original range. */
  lemma KeptGrownStep(ms: seq<MergeRange>, i: nat, next: nat, at: nat, amount: nat)
    requires i < |ms| && next == i + 1
    ensures var m := ms[i];
      Kept(ms[..next], at) == Kept(ms[..i], at) + (if at <= m.r1 || m.r1 < at <= m.r2 then [] else [m])
    ensures var m := ms[i];
      Grown(ms[..next], at, amount) == Grown(ms[..i], at, amount) + (if m.r1 < at <= m.r2 then [m.Grown(amount)] else [])
  {
    assert ms[..next][..i] == ms[..i];
  }

  /** The finished walk's cells, with the grown ranges xs written, as ShiftSpec says when the original ranges are disjoint. */
  ghost predicate CellsFinished(ins: Insertion, s: SheetData, xs: seq<MergeRange>)
  {
    DisjointRanges(ins) ==> CellsAt(ins, s.rows, ins.at - 1, 0, Appended(ins, ins.at - 1) + xs)
  }

  /** The finished walk's layout, with the grown ranges xs written, as ShiftSpec says. */
  ghost predicate LayoutFinished(ins: Insertion, s: SheetData, xs: seq<MergeRange>)
  {
    LayoutAt(ins, s, ins.at - 1, 0, Appended(ins, ins.at - 1) + xs)
  }

  /**
    Reconciling one more original range m: a straddling one is merged again,
    grown, which blanks its cells but the anchor and creates its rows; any
    other leaves cells and layout alone.
   */
  lemma ReconcileStepGrid(ins: Insertion, s: SheetData, xs: seq<MergeRange>, m: MergeRange)
    requires m in ins.before.merges && m.WellFormed()
    requires CellsFinished(ins, s, xs) && LayoutFinished(ins, s, xs)
    ensures var s' := ReconcileStep(s, m, ins.at, ins.amount, ins.defaults);
      var xs' := xs + (if m.r1 < ins.at <= m.r2 then [m.Grown(ins.amount)] else []);
      CellsFinished(ins, s', xs') && LayoutFinished(ins, s', xs')
  {
    if m.r1 < ins.at <= m.r2 {
      ReconcileGrownCells(ins, s, xs, m);
      ReconcileGrownHeights(ins, s, xs, m);
      ReconcileGrownBounds(ins, s, xs, m);
    } else {
      assert xs + [] == xs;
    }
  }

  /** The cells part of ReconcileStepGrid for a straddling range. */
  lemma ReconcileGrownCells(ins: Insertion, s: SheetData, xs: seq<MergeRange>, m: MergeRange)
    requires m in ins.before.merges && m.WellFormed() && m.r1 < ins.at <= m.r2
    requires CellsFinished(ins, s, xs)
    ensures CellsFinished(ins, MergeAdded(MergeRemoved(s, m), m.Grown(ins.amount), ins.defaults), xs + [m.Grown(ins.amount)])
  {
    var x := m.Grown(ins.amount);
    var s0 := MergeRemoved(s, m);
    var tail := Appended(ins, ins.at - 1);
    assert tail + (xs + [x]) == tail + xs + [x];
    if DisjointRanges(ins) {
      MergeAddedCells(s0, x, ins.defaults);
      CellsGrownStep(ins, s0.rows, MergeAdded(s0, x, ins.defaults).rows, tail + xs, m);
    }
  }

  /** The row records part of ReconcileStepGrid for a straddling range. */
  lemma ReconcileGrownHeights(ins: Insertion, s: SheetData, xs: seq<MergeRange>, m: MergeRange)
    requires m in ins.before.merges && m.WellFormed() && m.r1 < ins.at <= m.r2
    requires HeightsAt(ins, s.rows, ins.at - 1, 0, Appended(ins, ins.at - 1) + xs)
    ensures HeightsAt(ins, MergeAdded(MergeRemoved(s, m), m.Grown(ins.amount), ins.defaults).rows, ins.at - 1, 0,
                      Appended(ins, ins.at - 1) + (xs + [m.Grown(ins.amount)]))
  {
    var x := m.Grown(ins.amount);
    var s0 := MergeRemoved(s, m);
    var tail := Appended(ins, ins.at - 1);
    assert tail + (xs + [x]) == tail + xs + [x];
    MergeAddedHeights(s0, x, ins.defaults);
    HeightsGrownStep(ins, s0.rows, MergeAdded(s0, x, ins.defaults).rows, tail + xs, x);
  }

  /** The column records and used bounds part of ReconcileStepGrid for a straddling range. */
  lemma ReconcileGrownBounds(ins: Insertion, s: SheetData, xs: seq<MergeRange>, m: MergeRange)
    requires m in ins.before.merges && m.WellFormed() && m.r1 < ins.at <= m.r2
    requires LayoutFinished(ins, s, xs)
    ensures var s' := MergeAdded(MergeRemoved(s, m), m.Grown(ins.amount), ins.defaults);
      var ys := Appended(ins, ins.at - 1) + (xs + [m.Grown(ins.amount)]);
      WidthsAt(ins, s'.cols, ins.at - 1, 0) &&
      IsLastRowAfter(ins, ins.at - 1, 0, ys, s'.lastRow) && IsLastColAfter(ins, ys, s'.lastCol)
  {
    var x := m.Grown(ins.amount);
    var s0 := MergeRemoved(s, m);
    var tail := Appended(ins, ins.at - 1);
    assert tail + (xs + [x]) == tail + xs + Listed(Some(x));
    MergeAddedBounds(s0, x, ins.defaults);
    LastRowFillStep(ins, ins.at - 1, 0, tail + xs, Some(x), s0.lastRow);
    LastColFillStep(ins, tail + xs, Some(x), s0.lastCol);
  }

  /** The reconciliation loop over the original ranges ms[..i] writes the blanks of the grown ones, in order. */
  lemma {:induction false} ReconciledGrid(ins: Insertion, w: SheetData, i: nat)
    requires i <= |ins.before.merges| && AllWellFormed(ins.before.merges)
    requires CellsFinished(ins, w, []) && LayoutFinished(ins, w, [])
    ensures var ms := ins.before.merges;
      var s := Reconciled(w, ms, ins.at, ins.amount, ins.defaults, i);
      var xs := Grown(ms[..i], ins.at, ins.amount);
      CellsFinished(ins, s, xs) && LayoutFinished(ins, s, xs)
  {
    var ms := ins.before.merges;
    if i == 0 {
      assert ms[..0] == [];
    } else {
      var s := Reconciled(w, ms, ins.at, ins.amount, ins.defaults, i - 1);
      var xs := Grown(ms[..i - 1], ins.at, ins.amount);
      var m := ms[i - 1];
      ReconciledGrid(ins, w, i - 1);
      assert Grown(ms[..i], ins.at, ins.amount) == xs + (if m.r1 < ins.at <= m.r2 then [m.Grown(ins.amount)] else []) by {
        KeptGrownStep(ms, i - 1, i, ins.at, ins.amount);
      }
      assert Reconciled(w, ms, ins.at, ins.amount, ins.defaults, i) == ReconcileStep(s, m, ins.at, ins.amount, ins.defaults);
      ReconcileStepGrid(ins, s, xs, m);
    }
  }

  /** Taking out a range that is not among the kept ones in front of it. */
  lemma DropFromMiddle(kept: seq<MergeRange>, m: MergeRange, rest: seq<MergeRange>, tail: seq<MergeRange>, grown: seq<MergeRange>)
    requires m !in kept
    ensures RemoveFirst(kept + ([m] + rest) + tail + grown, m) == kept + rest + tail + grown
  {
    var post := rest + tail + grown;
    assert kept + ([m] + rest) + tail + grown == kept + [m] + post;
    RemoveFirstAt(kept, m, post);
  }

  /** Taking out a straddling range and registering it grown at the end. */
  lemma RegrowFromMiddle(kept: seq<MergeRange>, m: MergeRange, rest: seq<MergeRange>, tail: seq<MergeRange>, grown: seq<MergeRange>, amount: nat)
    requires m !in kept
    ensures RemoveFirst(kept + ([m] + rest) + tail + grown, m) + [m.Grown(amount)] ==
      kept + rest + tail + (grown + [m.Grown(amount)])
  {
    DropFromMiddle(kept, m, rest, tail, grown);
  }

  /** A range that does not lie wholly above the insertion row is not among the kept ones. */
  lemma NotKept(ms: seq<MergeRange>, m: MergeRange, at: nat)
    requires at <= m.r1 || at <= m.r2
    ensures m !in Kept(ms, at)
  {
    KeptMembers(ms, at);
  }

  /**
    Reconciling the original range ms[i - 1] after ms[..i - 1]: it is removed
    when it starts at or below the insertion row, and re-registered grown when
    it straddles it.
   */
  lemma ReconcileStepMerges(s: SheetData, ms: seq<MergeRange>, tail: seq<MergeRange>, at: nat, amount: nat, d: Defaults, i: nat)
    requires 0 < i <= |ms| && AllWellFormed(ms)
    requires s.merges == Kept(ms[..i - 1], at) + ms[i - 1..] + tail + Grown(ms[..i - 1], at, amount)
    ensures ReconcileStep(s, ms[i - 1], at, amount, d).merges == Kept(ms[..i], at) + ms[i..] + tail + Grown(ms[..i], at, amount)
  {
    var m := ms[i - 1];
    var kept := Kept(ms[..i - 1], at);
    var grown := Grown(ms[..i - 1], at, amount);
    var rest := ms[i..];
    KeptGrownStep(ms, i - 1, i, at, amount);
    assert ms[i - 1..] == [m] + rest;
    assert s.merges == kept + ([m] + rest) + tail + grown;
    if at <= m.r1 {
      NotKept(ms[..i - 1], m, at);
      DropFromMiddle(kept, m, rest, tail, grown);
      assert Kept(ms[..i], at) == kept && Grown(ms[..i], at, amount) == grown;
    } else if m.r1 < at <= m.r2 {
      NotKept(ms[..i - 1], m, at);
      MergeAddedEffect(MergeRemoved(s, m), m.Grown(amount), d);
      RegrowFromMiddle(kept, m, rest, tail, grown, amount);
      assert Kept(ms[..i], at) == kept && Grown(ms[..i], at, amount) == grown + [m.Grown(amount)];
    } else {
      assert Kept(ms[..i], at) == kept + [m] && Grown(ms[..i], at, amount) == grown;
      assert kept + ([m] + rest) + tail + grown == (kept + [m]) + rest + tail + grown;
    }
  }

  /**
    The reconciliation loop over the original ranges ms[..i]: the kept ones,
    then those not yet reached, then the ranges registered during the walk,
    then the grown ones.
   */
  lemma {:induction false} ReconciledMerges(w: SheetData, ms: seq<MergeRange>, tail: seq<MergeRange>, at: nat, amount: nat, d: Defaults, i: nat)
    requires i <= |ms| && AllWellFormed(ms) && w.merges == ms + tail
    ensures Reconciled(w, ms, at, amount, d, i).merges == Kept(ms[..i], at) + ms[i..] + tail + Grown(ms[..i], at, amount)
  {
    if i == 0 {
      assert ms[..0] == [] && ms[0..] == ms;
      assert Kept([], at) + ms + tail + Grown([], at, amount) == ms + tail;
    } else {
      ReconciledMerges(w, ms, tail, at, amount, d, i - 1);
      ReconcileStepMerges(Reconciled(w, ms, at, amount, d, i - 1), ms, tail, at, amount, d, i);
    }
  }

  /**
    `insert_rows` in closed form, on a sheet whose merged ranges are well
    formed: it completes exactly when it gets through every source row from
    the insertion row down to the last used row (no cell it reads lies outside
    the read-back sheet, and every row can be looked up when it is blanked); it then
    leaves the layout and merge list ShiftSpec.InsertedLayout describes, and,
    when the ranges are also disjoint, the cells ShiftSpec.InsertedAs does.
   */
  lemma InsertRowsMeaning(g: SheetData, d: Defaults, size: ReadBack, idx: int, amount: nat)
    requires amount >= 1 && AllWellFormed(g.merges)
    ensures var ins := Insertion(g, d, size, InsertionRow(idx), amount);
      var res := InsertRowsResult(g, d, size, idx, amount);
      (res.Some? <==> RowsComplete(ins)) && (res.Some? ==> InsertedLayout(ins, res.value)) &&
      (res.Some? && DisjointRanges(ins) ==> InsertedAs(ins, res.value))
  {
    var at := InsertionRow(idx);
    var ins := Insertion(g, d, size, at, amount);
    var w := Walk(g, d, size, amount, at as int - 1);
    WalkMeaning(ins, w);
    InsertRowsAfterWalk(ins, w, InsertRowsResult(g, d, size, idx, amount));
  }

  /** The row loop of InsertRowsMeaning, with its outcome named `w`. */
  lemma WalkMeaning(ins: Insertion, w: Option<SheetData>)
    requires ins.amount >= 1 && AllWellFormed(ins.before.merges)
    requires w == Walk(ins.before, ins.defaults, ins.size, ins.amount, ins.at as int - 1)
    ensures w.Some? <==> CompletesBelow(ins, ins.at as int - 1)
    ensures w.Some? ==> WalkAt(ins, w.value, ins.at as int - 1, 0)
  {
    WalkDefined(ins, ins.at as int - 1);
    WalkGrid(ins, ins.at as int - 1);
  }

  /** The last step of InsertRowsMeaning, with the walk's outcome named `w` and the result `res`. */
  lemma InsertRowsAfterWalk(ins: Insertion, w: Option<SheetData>, res: Option<SheetData>)
    requires ins.amount >= 1 && AllWellFormed(ins.before.merges)
    requires res == if w.Some? then Some(Reconciled(w.value, ins.before.merges, ins.at, ins.amount, ins.defaults, |ins.before.merges|)) else None
    requires w.Some? <==> CompletesBelow(ins, ins.at as int - 1)
    requires w.Some? ==> WalkAt(ins, w.value, ins.at as int - 1, 0)
    ensures (res.Some? <==> RowsComplete(ins)) && (res.Some? ==> InsertedLayout(ins, res.value)) &&
      (res.Some? && DisjointRanges(ins) ==> InsertedAs(ins, res.value))
  {
    CompletesFromInsertionRow(ins);
    if w.Some? {
      WalkFinished(ins, w.value);
      ReconciledMeaning(ins, w.value);
    }
  }

  /** RowsComplete is CompletesBelow the row above the insertion row. */
  lemma CompletesFromInsertionRow(ins: Insertion)
    ensures RowsComplete(ins) <==> CompletesBelow(ins, ins.at as int - 1)
  {
  }

  /** The walk, finished, as the reconciliation starts from it. */
  lemma WalkFinished(ins: Insertion, w: SheetData)
    requires WalkAt(ins, w, ins.at as int - 1, 0)
    ensures CellsFinished(ins, w, []) && LayoutFinished(ins, w, [])
    ensures w.merges == ins.before.merges + Appended(ins, ins.at as int - 1)
  {
    var tail := Appended(ins, ins.at as int - 1);
    assert Registered(ins, ins.at as int - 1, 0) == tail;
    assert tail + [] == tail;
  }

  /** Reconciling the original ranges after the walk has finished leaves the sheet InsertedLayout, and with disjoint ranges InsertedAs, describes. */
  lemma ReconciledMeaning(ins: Insertion, w: SheetData)
    requires AllWellFormed(ins.before.merges)
    requires CellsFinished(ins, w, []) && LayoutFinished(ins, w, [])
    requires w.merges == ins.before.merges + Appended(ins, ins.at as int - 1)
    ensures var r := Reconciled(w, ins.before.merges, ins.at, ins.amount, ins.defaults, |ins.before.merges|);
      InsertedLayout(ins, r) && (DisjointRanges(ins) ==> InsertedAs(ins, r))
  {
    ReconciledAllGrid(ins, w);
    ReconciledAllMerges(ins, w);
    FinishedIsInserted(ins, Reconciled(w, ins.before.merges, ins.at, ins.amount, ins.defaults, |ins.before.merges|));
  }

  /** ReconciledGrid over every original range. */
  lemma ReconciledAllGrid(ins: Insertion, w: SheetData)
    requires AllWellFormed(ins.before.merges)
    requires CellsFinished(ins, w, []) && LayoutFinished(ins, w, [])
    ensures var ms := ins.before.merges;
      var r := Reconciled(w, ms, ins.at, ins.amount, ins.defaults, |ms|);
      CellsFinished(ins, r, Grown(ms, ins.at, ins.amount)) && LayoutFinished(ins, r, Grown(ms, ins.at, ins.amount))
  {
    var ms := ins.before.merges;
    ReconciledGrid(ins, w, |ms|);
    assert ms[..|ms|] == ms;
  }

  /** ReconciledMerges over every original range: the merge list the finished call leaves. */
  lemma ReconciledAllMerges(ins: Insertion, w: SheetData)
    requires AllWellFormed(ins.before.merges)
    requires w.merges == ins.before.merges + Appended(ins, ins.at as int - 1)
    ensures Reconciled(w, ins.before.merges, ins.at, ins.amount, ins.defaults, |ins.before.merges|).merges == FinalMerges(ins)
  {
    var ms := ins.before.merges;
    var tail := Appended(ins, ins.at as int - 1);
    ReconciledMerges(w, ms, tail, ins.at, ins.amount, ins.defaults, |ms|);
    assert ms[..|ms|] == ms && ms[|ms|..] == [];
    assert Kept(ms, ins.at) + [] + tail == Kept(ms, ins.at) + tail;
  }

  /** A sheet with every grown range written over the finished walk, and the final merge list, is the one InsertedLayout and InsertedAs describe. */
  lemma FinishedIsInserted(ins: Insertion, r: SheetData)
    requires CellsFinished(ins, r, Grown(ins.before.merges, ins.at, ins.amount))
    requires LayoutFinished(ins, r, Grown(ins.before.merges, ins.at, ins.amount))
    requires r.merges == FinalMerges(ins)
    ensures InsertedLayout(ins, r) && (DisjointRanges(ins) ==> InsertedAs(ins, r))
  {
  }
}
