/**
  The operations of xl.py on a worksheet: the style-preserving write
  `set_value_cell`, the tolerant merge removal `_delete_marge_cell`, and the
  row shift engine `insert_rows`. Each method is specified by a function on
  the sheet's state as a value; what those functions mean is proved below and
  in module ShiftProof.
 */
module Xl {
  import opened Cells
  import opened Merges
  import opened Worksheet
  import opened ShiftSpec

  /** Both pattern coordinates given: xl.py only then copies formatting from another cell. */
  predicate HasPattern(patternRow: Option<nat>, patternCol: Option<nat>)
  {
    patternRow.Some? && patternCol.Some?
  }

  /**
    The xlwt calls `set_value_cell(sheet, row, col, value, patternRow, patternCol)`
    issues on sheet `s`, in order: with a pattern, read its column width and
    row height (creating their records); write the value; give the new cell
    the style of the cell read before the write (the pattern cell, or the
    target itself); then carry over the width and the height when they are
    non-zero.
   */
  function SetValueOps(s: SheetData, d: Defaults, row: nat, col: nat, value: Value,
                       patternRow: Option<nat>, patternCol: Option<nat>): CallLog
  {
    var pat := HasPattern(patternRow, patternCol);
    var prev := if pat then GetCell(s.rows, patternRow.value, patternCol.value) else GetCell(s.rows, row, col);
    var width := if pat then WidthOf(s.cols, patternCol.value, d) else 0;
    var height := if pat then HeightOf(s.rows, patternRow.value, d) else 0;
    var lookups := if pat then Then(Then(NoCalls, ReadCol(patternCol.value)), ReadRow(patternRow.value)) else NoCalls;
    var written := Then(lookups, WriteCell(row, col, value));
    var styled := ThenIf(written, prev.Some?, Restyle(row, col, if prev.Some? then prev.value.xf else 0));
    ThenIf(ThenIf(styled, width != 0, SetWidth(col, width)), height != 0, SetHeight(row, height))
  }

  /** The sheet after `set_value_cell`. */
  function SetValueData(s: SheetData, d: Defaults, row: nat, col: nat, value: Value,
                        patternRow: Option<nat>, patternCol: Option<nat>): SheetData
  {
    Replay(s, d, SetValueOps(s, d, row, col, value, patternRow, patternCol))
  }

  /** SetValueData, stage by stage. */
  lemma SetValueStages(s: SheetData, d: Defaults, row: nat, col: nat, value: Value,
                       patternRow: Option<nat>, patternCol: Option<nat>)
    ensures SetValueData(s, d, row, col, value, patternRow, patternCol) == (
      var pat := HasPattern(patternRow, patternCol);
      var prev := if pat then GetCell(s.rows, patternRow.value, patternCol.value) else GetCell(s.rows, row, col);
      var width := if pat then WidthOf(s.cols, patternCol.value, d) else 0;
      var height := if pat then HeightOf(s.rows, patternRow.value, d) else 0;
      var s1 := if pat then RowRead(ColRead(s, patternCol.value, d), patternRow.value, d) else s;
      var s2 := CellWritten(s1, row, col, value, d);
      var s3 := if prev.Some? && GetCell(s2.rows, row, col).Some? then XfSet(s2, row, col, prev.value.xf) else s2;
      var s4 := if width != 0 then ColWidthSet(s3, col, width) else s3;
      if height != 0 then RowHeightSet(s4, row, height) else s4)
  {
    var pat := HasPattern(patternRow, patternCol);
    var prev := if pat then GetCell(s.rows, patternRow.value, patternCol.value) else GetCell(s.rows, row, col);
    var width := if pat then WidthOf(s.cols, patternCol.value, d) else 0;
    var height := if pat then HeightOf(s.rows, patternRow.value, d) else 0;
    var lookups := if pat then Then(Then(NoCalls, ReadCol(patternCol.value)), ReadRow(patternRow.value)) else NoCalls;
    var written := Then(lookups, WriteCell(row, col, value));
    var styled := ThenIf(written, prev.Some?, Restyle(row, col, if prev.Some? then prev.value.xf else 0));
    var widened := ThenIf(styled, width != 0, SetWidth(col, width));
    ReplayThenIf(s, d, widened, height != 0, SetHeight(row, height));
    ReplayThenIf(s, d, styled, width != 0, SetWidth(col, width));
    ReplayThenIf(s, d, written, prev.Some?, Restyle(row, col, if prev.Some? then prev.value.xf else 0));
    if pat {
      assert Replay(s, d, Then(NoCalls, ReadCol(patternCol.value))) == ColRead(s, patternCol.value, d);
    }
  }

  /** `set_value_cell`. */
  method SetValueCell(sheet: Sheet, row: nat, col: nat, value: Value, patternRow: Option<nat>, patternCol: Option<nat>)
    requires sheet.Valid()
    modifies sheet
    ensures sheet.Valid()
    ensures sheet.Data() == SetValueData(old(sheet.Data()), sheet.defaults, row, col, value, patternRow, patternCol)
  {
    SetValueStages(sheet.Data(), sheet.defaults, row, col, value, patternRow, patternCol);
    var colWidth: Option<int> := None;
    var rowHeight: Option<int> := None;
    var prev: Option<Cell>;
    if patternCol.Some? && patternRow.Some? {
      prev := GetCell(sheet.rows, patternRow.value, patternCol.value);
      var w := sheet.ColWidth(patternCol.value);
      var h := sheet.RowHeight(patternRow.value);
      colWidth, rowHeight := Some(w), Some(h);
    } else {
      prev := GetCell(sheet.rows, row, col);
    }
    sheet.Write(row, col, value);
    if prev.Some? {
      var newCell := GetCell(sheet.rows, row, col);
      if newCell.Some? {
        sheet.SetXf(row, col, prev.value.xf);
      }
    }
    if colWidth.Some? && colWidth.value != 0 {
      sheet.SetColWidth(col, colWidth.value);
    }
    if rowHeight.Some? && rowHeight.value != 0 {
      sheet.SetRowHeight(row, rowHeight.value);
    }
  }

  /**
    Row heights after `set_value_cell` at `row`: the target row takes the
    pattern row's height when that is non-zero and otherwise keeps its own;
    the pattern row's record exists afterwards.
   */
  function HeightAfterSet(rows: map<nat, Row>, row: nat, patternRow: Option<nat>, patternCol: Option<nat>, d: Defaults, r: nat): Option<int>
  {
    var pat := HasPattern(patternRow, patternCol);
    if r == row then
      Some(if pat && HeightOf(rows, patternRow.value, d) != 0 then HeightOf(rows, patternRow.value, d)
           else HeightOf(rows, row, d))
    else if pat && r == patternRow.value then Some(HeightOf(rows, r, d))
    else RowHeightAt(rows, r)
  }

  /**
    Column widths after `set_value_cell` at `col`: the target column takes the
    pattern column's width when that is non-zero; the pattern column's record
    exists afterwards.
   */
  function WidthAfterSet(cols: map<nat, int>, col: nat, patternRow: Option<nat>, patternCol: Option<nat>, d: Defaults, c: nat): Option<int>
  {
    var pat := HasPattern(patternRow, patternCol);
    if pat && c == col && WidthOf(cols, patternCol.value, d) != 0 then Some(WidthOf(cols, patternCol.value, d))
    else if pat && c == patternCol.value then Some(WidthOf(cols, c, d))
    else ColWidthAt(cols, c)
  }

  /** The cell at (r, c) after `set_value_cell`, one point at a time. */
  lemma SetValueCellAt(s: SheetData, d: Defaults, row: nat, col: nat, value: Value, patternRow: Option<nat>, patternCol: Option<nat>, r: nat, c: nat)
    ensures var s' := SetValueData(s, d, row, col, value, patternRow, patternCol);
      var pat := HasPattern(patternRow, patternCol);
      var src := if pat then (patternRow.value, patternCol.value) else (row, col);
      GetCell(s'.rows, r, c) == if r == row && c == col then Some(Cell(value, StyleAt(s.rows, src.0, src.1, d))) else GetCell(s.rows, r, c)
  {
    SetValueStages(s, d, row, col, value, patternRow, patternCol);
    var pat := HasPattern(patternRow, patternCol);
    var prev := if pat then GetCell(s.rows, patternRow.value, patternCol.value) else GetCell(s.rows, row, col);
    var s1 := if pat then RowRead(ColRead(s, patternCol.value, d), patternRow.value, d) else s;
    if pat {
      RowReadCellAt(ColRead(s, patternCol.value, d), patternRow.value, d, r, c);
      RowReadCellAt(ColRead(s, patternCol.value, d), patternRow.value, d, row, col);
    }
    var s2 := CellWritten(s1, row, col, value, d);
    CellWrittenCellAt(s1, row, col, value, d, r, c);
    CellWrittenCellAt(s1, row, col, value, d, row, col);
    var s3 := if prev.Some? && GetCell(s2.rows, row, col).Some? then XfSet(s2, row, col, prev.value.xf) else s2;
    if prev.Some? {
      XfSetCellAt(s2, row, col, prev.value.xf, r, c);
    }
    var width := if pat then WidthOf(s.cols, patternCol.value, d) else 0;
    var s4 := if width != 0 then ColWidthSet(s3, col, width) else s3;
    RowHeightSetCellAt(s4, row, if pat then HeightOf(s.rows, patternRow.value, d) else 0, r, c);
  }

  /**
    What `set_value_cell` promises of the cells: the target holds `value` in
    the style of the cell it inherits from (the pattern cell when both pattern
    coordinates are given, the target itself otherwise), and every other cell
    is untouched.
   */
  lemma SetValueCellEffect(s: SheetData, d: Defaults, row: nat, col: nat, value: Value, patternRow: Option<nat>, patternCol: Option<nat>)
    ensures var s' := SetValueData(s, d, row, col, value, patternRow, patternCol);
      var pat := HasPattern(patternRow, patternCol);
      var src := if pat then (patternRow.value, patternCol.value) else (row, col);
      GetCell(s'.rows, row, col) == Some(Cell(value, StyleAt(s.rows, src.0, src.1, d)))
    ensures var s' := SetValueData(s, d, row, col, value, patternRow, patternCol);
      forall r: nat, c: nat :: r != row || c != col ==> GetCell(s'.rows, r, c) == GetCell(s.rows, r, c)
  {
    SetValueCellAt(s, d, row, col, value, patternRow, patternCol, row, col);
    forall r: nat, c: nat | r != row || c != col
      ensures GetCell(SetValueData(s, d, row, col, value, patternRow, patternCol).rows, r, c) == GetCell(s.rows, r, c)
    {
      SetValueCellAt(s, d, row, col, value, patternRow, patternCol, r, c);
    }
  }

  /** The record of row r after `set_value_cell`, one row at a time. */
  lemma SetValueHeightAt(s: SheetData, d: Defaults, row: nat, col: nat, value: Value, patternRow: Option<nat>, patternCol: Option<nat>, r: nat)
    ensures RowHeightAt(SetValueData(s, d, row, col, value, patternRow, patternCol).rows, r) == HeightAfterSet(s.rows, row, patternRow, patternCol, d, r)
  {
    SetValueStages(s, d, row, col, value, patternRow, patternCol);
  }

  /**
    What `set_value_cell` does to row heights: they change as HeightAfterSet
    says.
   */
  lemma SetValueHeightsEffect(s: SheetData, d: Defaults, row: nat, col: nat, value: Value, patternRow: Option<nat>, patternCol: Option<nat>)
    ensures var s' := SetValueData(s, d, row, col, value, patternRow, patternCol);
      forall r: nat :: RowHeightAt(s'.rows, r) == HeightAfterSet(s.rows, row, patternRow, patternCol, d, r)
  {
    forall r: nat
      ensures RowHeightAt(SetValueData(s, d, row, col, value, patternRow, patternCol).rows, r) == HeightAfterSet(s.rows, row, patternRow, patternCol, d, r)
    {
      SetValueHeightAt(s, d, row, col, value, patternRow, patternCol, r);
    }
  }

  /**
    What `set_value_cell` does to the rest of the layout: column widths change
    as WidthAfterSet says, the used bounds grow to cover the cells touched, and
    the merged ranges are left alone.
   */
  lemma SetValueWidthsEffect(s: SheetData, d: Defaults, row: nat, col: nat, value: Value, patternRow: Option<nat>, patternCol: Option<nat>)
    ensures var s' := SetValueData(s, d, row, col, value, patternRow, patternCol);
      forall c: nat :: ColWidthAt(s'.cols, c) == WidthAfterSet(s.cols, col, patternRow, patternCol, d, c)
    ensures var s' := SetValueData(s, d, row, col, value, patternRow, patternCol);
      s'.lastRow == (if HasPattern(patternRow, patternCol) then Max(Max(s.lastRow, patternRow.value), row) else Max(s.lastRow, row)) &&
      s'.lastCol == Max(s.lastCol, col) && s'.merges == s.merges
  {
    SetValueStages(s, d, row, col, value, patternRow, patternCol);
    var pat := HasPattern(patternRow, patternCol);
    var prev := if pat then GetCell(s.rows, patternRow.value, patternCol.value) else GetCell(s.rows, row, col);
    var s1 := if pat then RowRead(ColRead(s, patternCol.value, d), patternRow.value, d) else s;
    var s2 := CellWritten(s1, row, col, value, d);
    var s3 := if prev.Some? && GetCell(s2.rows, row, col).Some? then XfSet(s2, row, col, prev.value.xf) else s2;
    assert s3.cols == s1.cols && s3.lastRow == s2.lastRow && s3.lastCol == s2.lastCol && s3.merges == s.merges;
    var s' := SetValueData(s, d, row, col, value, patternRow, patternCol);
    if pat {
      var w := WidthOf(s.cols, patternCol.value, d);
      assert s1.cols == s.cols[patternCol.value := w];
      assert s'.cols == if w != 0 then s1.cols[col := w] else s1.cols;
    } else {
      assert s'.cols == s.cols;
    }
  }

  /** `_delete_marge_cell`: remove the first occurrence of `m`; a missing range is silently ignored. */
  method DeleteMerge(sheet: Sheet, m: MergeRange)
    requires sheet.Valid()
    modifies sheet
    ensures sheet.Valid()
    ensures sheet.Data() == MergeRemoved(old(sheet.Data()), m)
  {
    var found := sheet.RemoveMerge(m);
  }

  // ---------------------------------------------------------------------------
  // insert_rows, as functions on the sheet's state, one loop level at a time.
  // ---------------------------------------------------------------------------

  /** The 1-based position `idx`, clamped to at least 1, as a 0-based row. */
  function InsertionRow(idx: int): (at: nat)
    ensures idx >= 1 ==> at + 1 == idx
    ensures idx <= 1 ==> at == 0
  {
    if idx <= 0 then 0 else idx - 1
  }

  /**
    The body of the column loop on (row, col): unless the cell is skipped, the
    range found at it (if any) is re-registered `amount` rows down with a
    blank anchor, and the read-back value is written `amount` rows down with
    (row, col) as the pattern.
   */
  function ColumnStep(s: SheetData, d: Defaults, snapshot: map<nat, Row>, amount: nat, row: nat, col: nat): SheetData
  {
    if IsSkipCell(s.merges, row, col) then s
    else SetValueData(MergeCopied(s, d, amount, row, col), d, row + amount, col, SnapshotValue(snapshot, row, col), Some(row), Some(col))
  }

  /** The range found at (row, col), if any, registered `amount` rows down with a blank anchor. */
  function MergeCopied(s: SheetData, d: Defaults, amount: nat, row: nat, col: nat): SheetData
  {
    var m := FindMerge(s.merges, row, col);
    if m.Some? then MergeWritten(s, m.value.Shifted(amount), d) else s
  }

  /** The sheet after the column loop of `row` has run over columns 0..n-1. */
  function ColumnsCopied(s: SheetData, d: Defaults, snapshot: map<nat, Row>, amount: nat, row: nat, n: nat): SheetData
  {
    if n == 0 then s
    else ColumnStep(ColumnsCopied(s, d, snapshot, amount, row, n - 1), d, snapshot, amount, row, n - 1)
  }

  /**
    Whether the reads of columns 0..n-1 of `row` succeed: every cell that the
    skip test, on the ranges as they stand when the loop reaches it, does not
    skip lies inside the read-back sheet.
   */
  predicate ColumnsRead(s: SheetData, d: Defaults, snapshot: map<nat, Row>, size: ReadBack, amount: nat, row: nat, n: nat)
  {
    n == 0 ||
    (ColumnsRead(s, d, snapshot, size, amount, row, n - 1) &&
     (IsSkipCell(ColumnsCopied(s, d, snapshot, amount, row, n - 1).merges, row, n - 1) || Readable(size, row, n - 1)))
  }

  /** ColumnsRead and ColumnsCopied one column further on, from the sheet `cur` the loop has reached. */
  lemma ColumnsNext(s: SheetData, d: Defaults, snapshot: map<nat, Row>, size: ReadBack, amount: nat, row: nat, col: nat, cur: SheetData)
    requires cur == ColumnsCopied(s, d, snapshot, amount, row, col)
    ensures ColumnsRead(s, d, snapshot, size, amount, row, col + 1) ==
      (ColumnsRead(s, d, snapshot, size, amount, row, col) && (IsSkipCell(cur.merges, row, col) || Readable(size, row, col)))
    ensures ColumnsCopied(s, d, snapshot, amount, row, col + 1) == ColumnStep(cur, d, snapshot, amount, row, col)
  {
  }

  /** Once a read of the column loop has raised, the loop as a whole has. */
  lemma {:induction false} ColumnsReadStays(s: SheetData, d: Defaults, snapshot: map<nat, Row>, size: ReadBack, amount: nat, row: nat, n: nat, m: nat)
    requires n <= m
    requires !ColumnsRead(s, d, snapshot, size, amount, row, n)
    ensures !ColumnsRead(s, d, snapshot, size, amount, row, m)
    decreases m - n
  {
    if n < m {
      ColumnsReadStays(s, d, snapshot, size, amount, row, n, m - 1);
    }
  }

  /**
    One iteration of the row loop on `row`: its columns 0..ncols copied, then
    the row blanked over 0..ncols and given the standard height. None where
    the source raises: IndexError when a cell it reads lies outside the
    read-back sheet, KeyError when the row has no record to blank.
   */
  function RowShifted(s: SheetData, d: Defaults, snapshot: map<nat, Row>, size: ReadBack, amount: nat, ncols: nat, row: nat): Option<SheetData>
  {
    if !ColumnsRead(s, d, snapshot, size, amount, row, ncols + 1) then None
    else
      var s1 := ColumnsCopied(s, d, snapshot, amount, row, ncols + 1);
      if row in s1.rows then Some(RowHeightSet(BlanksWritten(s1, row, 0, ncols, d.xf), row, ClearedRowHeight))
      else None
  }

  /** The sheet after the row loop has run over rows g.lastRow down to row + 1, or None once a row raised. */
  function Walk(g: SheetData, d: Defaults, size: ReadBack, amount: nat, row: int): Option<SheetData>
    requires row >= -1
    decreases g.lastRow - row
  {
    if row >= g.lastRow then Some(g)
    else
      match Walk(g, d, size, amount, row + 1)
      case None => None
      case Some(s) => RowShifted(s, d, g.rows, size, amount, g.lastCol, row + 1)
  }

  /** The reconciliation of one original range against the insertion row `at`. */
  function ReconcileStep(s: SheetData, m: MergeRange, at: nat, amount: nat, d: Defaults): SheetData
  {
    if at <= m.r1 then MergeRemoved(s, m)
    else if m.r1 < at <= m.r2 then MergeAdded(MergeRemoved(s, m), m.Grown(amount), d)
    else s
  }

  /** The sheet after reconciling the original ranges ms[..i], in order. */
  function Reconciled(s: SheetData, ms: seq<MergeRange>, at: nat, amount: nat, d: Defaults, i: nat): SheetData
    requires i <= |ms|
  {
    if i == 0 then s
    else ReconcileStep(Reconciled(s, ms, at, amount, d, i - 1), ms[i - 1], at, amount, d)
  }

  /** The sheet `insert_rows(g, idx, amount)` leaves, or None where it raises IndexError or KeyError. */
  function InsertRowsResult(g: SheetData, d: Defaults, size: ReadBack, idx: int, amount: nat): Option<SheetData>
  {
    var at := InsertionRow(idx);
    match Walk(g, d, size, amount, at - 1)
    case None => None
    case Some(w) => Some(Reconciled(w, g.merges, at, amount, d, |g.merges|))
  }

  /** Once a row of the walk has raised, every later row count sees the failure. */
  lemma {:induction false} WalkStaysFailed(g: SheetData, d: Defaults, size: ReadBack, amount: nat, row: int, later: int)
    requires -1 <= later <= row
    requires Walk(g, d, size, amount, row) == None
    ensures Walk(g, d, size, amount, later) == None
    decreases row - later
  {
    if later < row {
      WalkStaysFailed(g, d, size, amount, row - 1, later);
    }
  }

  /** A row that raises makes the whole of insert_rows raise. */
  lemma InsertRowsFails(g: SheetData, d: Defaults, size: ReadBack, idx: int, amount: nat, row: int)
    requires InsertionRow(idx) - 1 <= row
    requires Walk(g, d, size, amount, row) == None
    ensures InsertRowsResult(g, d, size, idx, amount) == None
  {
    WalkStaysFailed(g, d, size, amount, row, InsertionRow(idx) - 1);
  }

  /** A walk that completes is followed by the reconciliation of the original ranges. */
  lemma InsertRowsCompletes(g: SheetData, d: Defaults, size: ReadBack, idx: int, amount: nat, walked: SheetData, after: SheetData)
    requires Walk(g, d, size, amount, InsertionRow(idx) - 1) == Some(walked)
    requires after == Reconciled(walked, g.merges, InsertionRow(idx), amount, d, |g.merges|)
    ensures InsertRowsResult(g, d, size, idx, amount) == Some(after)
  {
  }

  /**
    The body of the column loop of `insert_rows`. `ok` is false where the
    read of a cell the skip test lets through raises IndexError; that read
    comes first, so nothing has been written then.
   */
  method CopyColumn(sheet: Sheet, snapshot: map<nat, Row>, size: ReadBack, amount: nat, row: nat, col: nat) returns (ok: bool)
    requires sheet.Valid()
    modifies sheet
    ensures sheet.Valid()
    ensures ok == (IsSkipCell(old(sheet.Data()).merges, row, col) || Readable(size, row, col))
    ensures ok ==> sheet.Data() == ColumnStep(old(sheet.Data()), sheet.defaults, snapshot, amount, row, col)
    ensures !ok ==> sheet.Data() == old(sheet.Data())
  {
    ok := true;
    if !IsSkipCell(sheet.mergedRanges, row, col) {
      if !Readable(size, row, col) {
        return false;
      }
      var value := SnapshotValue(snapshot, row, col);
      CopyMerge(sheet, amount, row, col);
      SetValueCell(sheet, row + amount, col, value, Some(row), Some(col));
    }
  }

  /** The first half of CopyColumn: the range found at (row, col), if any, written again `amount` rows down. */
  method CopyMerge(sheet: Sheet, amount: nat, row: nat, col: nat)
    requires sheet.Valid()
    modifies sheet
    ensures sheet.Valid()
    ensures sheet.Data() == MergeCopied(old(sheet.Data()), sheet.defaults, amount, row, col)
  {
    var m := FindMerge(sheet.mergedRanges, row, col);
    if m.Some? {
      FindMergeIn(sheet.mergedRanges, row, col);
      sheet.WriteMerge(m.value.r1 + amount, m.value.r2 + amount, m.value.c1, m.value.c2);
    }
  }

  /** The body of the reconciliation loop of `insert_rows` on one original range. */
  method ReconcileMerge(sheet: Sheet, m: MergeRange, at: nat, amount: nat)
    requires sheet.Valid() && m.WellFormed()
    modifies sheet
    ensures sheet.Valid()
    ensures sheet.Data() == ReconcileStep(old(sheet.Data()), m, at, amount, sheet.defaults)
  {
    if at <= m.r1 {
      DeleteMerge(sheet, m);
    } else if m.r1 < at <= m.r2 {
      DeleteMerge(sheet, m);
      sheet.Merge(m.r1, m.r2 + amount, m.c1, m.c2);
    }
  }

  /** The column loop of `insert_rows` on source row `row`: columns 0..ncols, in order. */
  method CopyColumns(sheet: Sheet, snapshot: map<nat, Row>, size: ReadBack, amount: nat, ncols: nat, row: nat) returns (ok: bool)
    requires sheet.Valid()
    modifies sheet
    ensures sheet.Valid()
    ensures ok == ColumnsRead(old(sheet.Data()), sheet.defaults, snapshot, size, amount, row, ncols + 1)
    ensures ok ==> sheet.Data() == ColumnsCopied(old(sheet.Data()), sheet.defaults, snapshot, amount, row, ncols + 1)
  {
    ghost var start := sheet.Data();
    ok := true;
    var col := 0;
    while col <= ncols && ok
      invariant 0 <= col <= ncols + 1
      invariant sheet.Valid()
      invariant ok == ColumnsRead(start, sheet.defaults, snapshot, size, amount, row, col)
      invariant ok ==> sheet.Data() == ColumnsCopied(start, sheet.defaults, snapshot, amount, row, col)
    {
      ghost var before := sheet.Data();
      ok := CopyColumn(sheet, snapshot, size, amount, row, col);
      ColumnsNext(start, sheet.defaults, snapshot, size, amount, row, col, before);
      col := col + 1;
    }
    if !ok {
      ColumnsReadStays(start, sheet.defaults, snapshot, size, amount, row, col, ncols + 1);
    }
  }

  /**
    One iteration of the row loop of `insert_rows`: copy the columns of `row`
    down, then blank the row and give it the standard height. `ok` is false
    where the source raises IndexError (a read outside `size`) or KeyError.
   */
  method ShiftRow(sheet: Sheet, snapshot: map<nat, Row>, size: ReadBack, amount: nat, ncols: nat, row: nat) returns (ok: bool)
    requires sheet.Valid()
    modifies sheet
    ensures sheet.Valid()
    ensures ok == RowShifted(old(sheet.Data()), sheet.defaults, snapshot, size, amount, ncols, row).Some?
    ensures ok ==> sheet.Data() == RowShifted(old(sheet.Data()), sheet.defaults, snapshot, size, amount, ncols, row).value
  {
    var read := CopyColumns(sheet, snapshot, size, amount, ncols, row);
    if !read {
      return false;
    }
    if row !in sheet.rows {
      return false;
    }
    sheet.WriteBlanks(row, 0, ncols);
    sheet.SetRowHeight(row, ClearedRowHeight);
    ok := true;
  }

  /**
    `insert_rows`: open `amount` rows before the 1-based row `idx`. The values
    are read from the sheet as it was on entry (the source saves the workbook
    and reads it back with xlrd, whose sheet has the dimensions `size`); `ok`
    is false where the source raises IndexError or KeyError, and the sheet is
    then left part-way.
   */
  method InsertRows(sheet: Sheet, size: ReadBack, idx: int, amount: nat) returns (ok: bool)
    requires sheet.Valid()
    modifies sheet
    ensures sheet.Valid()
    ensures ok == InsertRowsResult(old(sheet.Data()), sheet.defaults, size, idx, amount).Some?
    ensures ok ==> sheet.Data() == InsertRowsResult(old(sheet.Data()), sheet.defaults, size, idx, amount).value
  {
    ghost var g := sheet.Data();
    var snapshot := sheet.rows;
    var nrows := sheet.lastUsedRow;
    var ncols := sheet.lastUsedCol;
    var merged := sheet.mergedRanges;
    var at := InsertionRow(idx);

    var row: int := nrows;
    while row >= at
      invariant -1 <= row <= nrows
      invariant at <= nrows + 1 ==> at - 1 <= row
      invariant at > nrows ==> row == nrows
      invariant sheet.Valid()
      invariant Walk(g, sheet.defaults, size, amount, row) == Some(sheet.Data())
      decreases row
    {
      var shifted := ShiftRow(sheet, snapshot, size, amount, ncols, row);
      if !shifted {
        InsertRowsFails(g, sheet.defaults, size, idx, amount, row - 1);
        return false;
      }
      row := row - 1;
    }

    ghost var walked := sheet.Data();
    assert Walk(g, sheet.defaults, size, amount, at - 1) == Some(walked);
    assert AllWellFormed(merged);
    var i := 0;
    while i < |merged|
      invariant 0 <= i <= |merged|
      invariant sheet.Valid()
      invariant sheet.Data() == Reconciled(walked, merged, at, amount, sheet.defaults, i)
    {
      ReconcileMerge(sheet, merged[i], at, amount);
      i := i + 1;
    }
    InsertRowsCompletes(g, sheet.defaults, size, idx, amount, walked, sheet.Data());
    ok := true;
  }
}
