/**
  The xlwt worksheet as xl.py uses it. The library's bodies are not part of
  this model: each method below stands for one library call the source makes
  and is specified by a function on the sheet's state as a value, covering
  what that call does to the state xl.py reads back. Overwriting a cell is
  assumed allowed (the sheet was created with `cell_overwrite_ok=True`).
 */
module Worksheet {
  import opened Cells
  import opened Merges

  /** The state of a sheet as a value. */
  datatype SheetData = SheetData(
    rows: map<nat, Row>,
    cols: map<nat, int>,
    merges: seq<MergeRange>,
    lastRow: nat,
    lastCol: nat)
  {
    /** Every row record and cell lies within the used bounds; every range is well formed. */
    ghost predicate Valid()
    {
      (forall r :: r in rows ==> r <= lastRow) &&
      (forall r, c :: r in rows && c in rows[r].cells ==> c <= lastCol) &&
      AllWellFormed(merges)
    }
  }

  /** The larger of two indices: how the library raises its last used row and column. */
  function Max(a: nat, b: nat): nat
  {
    if a < b then b else a
  }

  /** `cells` with columns c1..c2 replaced by blanks of style `xf`. */
  function BlankRun(cells: map<nat, Cell>, c1: nat, c2: nat, xf: int): map<nat, Cell>
    decreases c2 + 1 - c1
  {
    if c2 < c1 then cells
    else BlankRun(cells[c1 := Cell(Blank, xf)], c1 + 1, c2, xf)
  }

  /** BlankRun puts a blank of style `xf` in every column c1..c2 and leaves every other column as it was. */
  lemma {:induction false} BlankRunEffect(cells: map<nat, Cell>, c1: nat, c2: nat, xf: int)
    ensures var r := BlankRun(cells, c1, c2, xf);
      forall c :: c in r <==> (c1 <= c <= c2 || c in cells)
    ensures var r := BlankRun(cells, c1, c2, xf);
      forall c :: c in r ==> r[c] == if c1 <= c <= c2 then Cell(Blank, xf) else cells[c]
    decreases c2 + 1 - c1
  {
    var r := BlankRun(cells, c1, c2, xf);
    if c1 <= c2 {
      var next := cells[c1 := Cell(Blank, xf)];
      BlankRunEffect(next, c1 + 1, c2, xf);
      assert r == BlankRun(next, c1 + 1, c2, xf);
      forall c | c in r
        ensures r[c] == if c1 <= c <= c2 then Cell(Blank, xf) else cells[c]
      {
        assert c == c1 || c1 + 1 <= c <= c2 || c in cells;
      }
    }
  }

  /** `sheet.row(r)`: reading row r creates its record (default height, no cells) when it is missing. */
  function RowRead(s: SheetData, r: nat, d: Defaults): (s': SheetData)
  {
    s.(rows := s.rows[r := Row(HeightOf(s.rows, r, d), CellsOf(s.rows, r))], lastRow := Max(s.lastRow, r))
  }

  /** `sheet.col(c)`: reading column c creates its record (default width) when it is missing. */
  function ColRead(s: SheetData, c: nat, d: Defaults): (s': SheetData)
  {
    s.(cols := s.cols[c := WidthOf(s.cols, c, d)])
  }

  /** `sheet.col(c).width = w`. */
  function ColWidthSet(s: SheetData, c: nat, w: int): (s': SheetData)
  {
    s.(cols := s.cols[c := w])
  }

  /** `sheet.row(r).height = h`, creating the record when it is missing. */
  function RowHeightSet(s: SheetData, r: nat, h: int): (s': SheetData)
  {
    s.(rows := s.rows[r := Row(h, CellsOf(s.rows, r))], lastRow := Max(s.lastRow, r))
  }

  /** `sheet.write(r, c, v)`: a new cell with the default style; the row record is created when missing. */
  function CellWritten(s: SheetData, r: nat, c: nat, v: Value, d: Defaults): (s': SheetData)
  {
    s.(rows := s.rows[r := Row(HeightOf(s.rows, r, d), CellsOf(s.rows, r)[c := Cell(v, d.xf)])],
       lastRow := Max(s.lastRow, r), lastCol := Max(s.lastCol, c))
  }

  /** `cell.xf_idx = xf` on an existing cell. */
  function XfSet(s: SheetData, r: nat, c: nat, xf: int): (s': SheetData)
    requires r in s.rows && c in s.rows[r].cells
  {
    s.(rows := s.rows[r := s.rows[r].(cells := s.rows[r].cells[c := s.rows[r].cells[c].(xf := xf)])])
  }

  /** `row.write_blanks(c1, c2)` on an existing row record: blanks of style `xf` over c1..c2. */
  function BlanksWritten(s: SheetData, r: nat, c1: nat, c2: nat, xf: int): (s': SheetData)
    requires r in s.rows
  {
    s.(rows := s.rows[r := s.rows[r].(cells := BlankRun(s.rows[r].cells, c1, c2, xf))], lastCol := Max(s.lastCol, c2))
  }

  /** `sheet.row(r).write_blanks(c1, c2)`: row r's record, created when missing, gets blanks over c1..c2. */
  function RowBlanked(s: SheetData, r: nat, c1: nat, c2: nat, d: Defaults): SheetData
  {
    BlanksWritten(RowRead(s, r, d), r, c1, c2, d.xf)
  }

  /** `sheet.row(r).write_blanks(c1, c2)` for every row r from lo up to hi - 1, in order. */
  function RowsBlanked(s: SheetData, lo: nat, hi: nat, c1: nat, c2: nat, d: Defaults): SheetData
    decreases hi - lo
  {
    if hi <= lo then s else RowBlanked(RowsBlanked(s, lo, hi - 1, c1, c2, d), hi - 1, c1, c2, d)
  }

  /**
    `sheet.merge(r1, r2, c1, c2)`: blanks of the default style over the range
    but its anchor (on the anchor row only when the range is wider than one
    column, then on every row below it), then the range registered after the
    existing ones.
   */
  function MergeAdded(s: SheetData, m: MergeRange, d: Defaults): SheetData
  {
    var s1 := if m.c1 < m.c2 then RowBlanked(s, m.r1, m.c1 + 1, m.c2, d) else s;
    var s2 := RowsBlanked(s1, m.r1 + 1, m.r2 + 1, m.c1, m.c2, d);
    s2.(merges := s2.merges + [m])
  }

  /** `sheet.write_merge(r1, r2, c1, c2, '')`: a blank anchor of the default style, then what `merge` does. */
  function MergeWritten(s: SheetData, m: MergeRange, d: Defaults): SheetData
  {
    MergeAdded(CellWritten(s, m.r1, m.c1, Blank, d), m, d)
  }

  /** `merged_ranges.remove(m)`, with a missing range leaving the sheet as it was. */
  function MergeRemoved(s: SheetData, m: MergeRange): SheetData
  {
    s.(merges := RemoveFirst(s.merges, m))
  }

  /** Reading a row record creates no cell and changes none. */
  lemma RowReadCellAt(s: SheetData, row: nat, d: Defaults, r: nat, c: nat)
    ensures GetCell(RowRead(s, row, d).rows, r, c) == GetCell(s.rows, r, c)
  {
  }

  /** Setting a row height creates no cell and changes none. */
  lemma RowHeightSetCellAt(s: SheetData, row: nat, h: int, r: nat, c: nat)
    ensures GetCell(RowHeightSet(s, row, h).rows, r, c) == GetCell(s.rows, r, c)
  {
  }

  /** A write puts a cell of the default style at its target and changes no other cell. */
  lemma CellWrittenCellAt(s: SheetData, row: nat, col: nat, v: Value, d: Defaults, r: nat, c: nat)
    ensures GetCell(CellWritten(s, row, col, v, d).rows, r, c) ==
      if r == row && c == col then Some(Cell(v, d.xf)) else GetCell(s.rows, r, c)
  {
  }

  /** Restyling a cell keeps its value, gives it style `xf`, and changes no other cell. */
  lemma XfSetCellAt(s: SheetData, row: nat, col: nat, xf: int, r: nat, c: nat)
    requires row in s.rows && col in s.rows[row].cells
    ensures GetCell(XfSet(s, row, col, xf).rows, r, c) ==
      if r == row && c == col then Some(Cell(s.rows[row].cells[col].value, xf)) else GetCell(s.rows, r, c)
  {
  }

  /** `row(r).write_blanks(c1, c2)`: blanks over c1..c2 on row r, whose record exists with the height it read; nothing else changes. */
  lemma RowBlankedEffect(s: SheetData, row: nat, c1: nat, c2: nat, d: Defaults)
    ensures var s' := RowBlanked(s, row, c1, c2, d);
      forall r: nat, c: nat :: GetCell(s'.rows, r, c) ==
        if r == row && c1 <= c <= c2 then Some(Cell(Blank, d.xf)) else GetCell(s.rows, r, c)
    ensures var s' := RowBlanked(s, row, c1, c2, d);
      forall r: nat :: RowHeightAt(s'.rows, r) == if r == row then Some(HeightOf(s.rows, row, d)) else RowHeightAt(s.rows, r)
    ensures var s' := RowBlanked(s, row, c1, c2, d);
      s'.cols == s.cols && s'.merges == s.merges && s'.lastRow == Max(s.lastRow, row) && s'.lastCol == Max(s.lastCol, c2)
  {
    BlankRunEffect(CellsOf(s.rows, row), c1, c2, d.xf);
  }

  /** MergeAdded in the stages `merge` runs: the anchor row's blanks, the lower rows' blanks, then the registration. */
  lemma MergeAddedStages(s: SheetData, m: MergeRange, d: Defaults, top: SheetData, blanked: SheetData)
    requires top == if m.c1 < m.c2 then RowBlanked(s, m.r1, m.c1 + 1, m.c2, d) else s
    requires blanked == RowsBlanked(top, m.r1 + 1, m.r2 + 1, m.c1, m.c2, d)
    ensures MergeAdded(s, m, d) == blanked.(merges := blanked.merges + [m])
  {
  }

  /** Rows lo..hi-1 blanked over c1..c2: each has a record with the height it read; nothing else changes. */
  lemma RowsBlankedEffect(s: SheetData, lo: nat, hi: nat, c1: nat, c2: nat, d: Defaults)
    ensures var s' := RowsBlanked(s, lo, hi, c1, c2, d);
      forall r: nat, c: nat :: GetCell(s'.rows, r, c) ==
        if lo <= r < hi && c1 <= c <= c2 then Some(Cell(Blank, d.xf)) else GetCell(s.rows, r, c)
    ensures var s' := RowsBlanked(s, lo, hi, c1, c2, d);
      forall r: nat :: RowHeightAt(s'.rows, r) == if lo <= r < hi then Some(HeightOf(s.rows, r, d)) else RowHeightAt(s.rows, r)
    ensures var s' := RowsBlanked(s, lo, hi, c1, c2, d);
      s'.cols == s.cols && s'.merges == s.merges &&
      s'.lastRow == (if lo < hi then Max(s.lastRow, hi - 1) else s.lastRow) &&
      s'.lastCol == (if lo < hi then Max(s.lastCol, c2) else s.lastCol)
  {
    RowsBlankedCells(s, lo, hi, c1, c2, d);
    RowsBlankedHeights(s, lo, hi, c1, c2, d);
    RowsBlankedBounds(s, lo, hi, c1, c2, d);
  }

  /** The cells part of RowsBlankedEffect. */
  lemma {:induction false} RowsBlankedCells(s: SheetData, lo: nat, hi: nat, c1: nat, c2: nat, d: Defaults)
    ensures var s' := RowsBlanked(s, lo, hi, c1, c2, d);
      forall r: nat, c: nat :: GetCell(s'.rows, r, c) ==
        if lo <= r < hi && c1 <= c <= c2 then Some(Cell(Blank, d.xf)) else GetCell(s.rows, r, c)
    decreases hi - lo
  {
    if lo < hi {
      var pre := RowsBlanked(s, lo, hi - 1, c1, c2, d);
      var post := RowsBlanked(s, lo, hi, c1, c2, d);
      assert post == RowBlanked(pre, hi - 1, c1, c2, d);
      RowsBlankedCells(s, lo, hi - 1, c1, c2, d);
      RowBlankedEffect(pre, hi - 1, c1, c2, d);
      forall r: nat, c: nat
        ensures GetCell(post.rows, r, c) == if lo <= r < hi && c1 <= c <= c2 then Some(Cell(Blank, d.xf)) else GetCell(s.rows, r, c)
      {
        assert GetCell(post.rows, r, c) == if r == hi - 1 && c1 <= c <= c2 then Some(Cell(Blank, d.xf)) else GetCell(pre.rows, r, c);
        assert GetCell(pre.rows, r, c) == if lo <= r < hi - 1 && c1 <= c <= c2 then Some(Cell(Blank, d.xf)) else GetCell(s.rows, r, c);
      }
    }
  }

  /** The row records part of RowsBlankedEffect. */
  lemma {:induction false} RowsBlankedHeights(s: SheetData, lo: nat, hi: nat, c1: nat, c2: nat, d: Defaults)
    ensures var s' := RowsBlanked(s, lo, hi, c1, c2, d);
      forall r: nat :: RowHeightAt(s'.rows, r) == if lo <= r < hi then Some(HeightOf(s.rows, r, d)) else RowHeightAt(s.rows, r)
    decreases hi - lo
  {
    if lo < hi {
      var pre := RowsBlanked(s, lo, hi - 1, c1, c2, d);
      RowsBlankedHeights(s, lo, hi - 1, c1, c2, d);
      RowBlankedEffect(pre, hi - 1, c1, c2, d);
      assert RowHeightAt(pre.rows, hi - 1) == RowHeightAt(s.rows, hi - 1);
    }
  }

  /** The column records, merge list and used bounds part of RowsBlankedEffect. */
  lemma {:induction false} RowsBlankedBounds(s: SheetData, lo: nat, hi: nat, c1: nat, c2: nat, d: Defaults)
    ensures var s' := RowsBlanked(s, lo, hi, c1, c2, d);
      s'.cols == s.cols && s'.merges == s.merges &&
      s'.lastRow == (if lo < hi then Max(s.lastRow, hi - 1) else s.lastRow) &&
      s'.lastCol == (if lo < hi then Max(s.lastCol, c2) else s.lastCol)
    decreases hi - lo
  {
    if lo < hi {
      var pre := RowsBlanked(s, lo, hi - 1, c1, c2, d);
      RowsBlankedBounds(s, lo, hi - 1, c1, c2, d);
      RowBlankedEffect(pre, hi - 1, c1, c2, d);
    }
  }

  /**
    `merge` blanks every cell of the range but its anchor, gives a record to
    every row it blanks in, raises the used bounds to the range's bottom row
    and right column when it blanks anything, and registers the range last.
   */
  lemma MergeAddedEffect(s: SheetData, m: MergeRange, d: Defaults)
    requires m.WellFormed()
    ensures var s' := MergeAdded(s, m, d);
      forall r: nat, c: nat :: GetCell(s'.rows, r, c) ==
        if m.Contains(r, c) && !m.IsAnchor(r, c) then Some(Cell(Blank, d.xf)) else GetCell(s.rows, r, c)
    ensures var s' := MergeAdded(s, m, d);
      forall r: nat :: RowHeightAt(s'.rows, r) == if m.BlankedRow(r) then Some(HeightOf(s.rows, r, d)) else RowHeightAt(s.rows, r)
    ensures var s' := MergeAdded(s, m, d);
      var any := m.r1 < m.r2 || m.c1 < m.c2;
      s'.cols == s.cols && s'.merges == s.merges + [m] &&
      s'.lastRow == (if any then Max(s.lastRow, m.r2) else s.lastRow) &&
      s'.lastCol == (if any then Max(s.lastCol, m.c2) else s.lastCol)
  {
    MergeAddedCells(s, m, d);
    MergeAddedHeights(s, m, d);
    MergeAddedBounds(s, m, d);
  }

  /** The cells part of MergeAddedEffect. */
  lemma MergeAddedCells(s: SheetData, m: MergeRange, d: Defaults)
    requires m.WellFormed()
    ensures var s' := MergeAdded(s, m, d);
      forall r: nat, c: nat :: GetCell(s'.rows, r, c) ==
        if m.Contains(r, c) && !m.IsAnchor(r, c) then Some(Cell(Blank, d.xf)) else GetCell(s.rows, r, c)
  {
    var s1 := if m.c1 < m.c2 then RowBlanked(s, m.r1, m.c1 + 1, m.c2, d) else s;
    var s2 := RowsBlanked(s1, m.r1 + 1, m.r2 + 1, m.c1, m.c2, d);
    MergeAddedStages(s, m, d, s1, s2);
    assert forall r: nat, c: nat :: GetCell(s1.rows, r, c) ==
             (if r == m.r1 && m.c1 < c <= m.c2 then Some(Cell(Blank, d.xf)) else GetCell(s.rows, r, c)) by {
      if m.c1 < m.c2 {
        RowBlankedEffect(s, m.r1, m.c1 + 1, m.c2, d);
      }
    }
    assert forall r: nat, c: nat :: GetCell(s2.rows, r, c) ==
             (if m.r1 + 1 <= r < m.r2 + 1 && m.c1 <= c <= m.c2 then Some(Cell(Blank, d.xf)) else GetCell(s1.rows, r, c)) by {
      RowsBlankedCells(s1, m.r1 + 1, m.r2 + 1, m.c1, m.c2, d);
    }
  }

  /** The row records part of MergeAddedEffect. */
  lemma MergeAddedHeights(s: SheetData, m: MergeRange, d: Defaults)
    requires m.WellFormed()
    ensures var s' := MergeAdded(s, m, d);
      forall r: nat :: RowHeightAt(s'.rows, r) == if m.BlankedRow(r) then Some(HeightOf(s.rows, r, d)) else RowHeightAt(s.rows, r)
  {
    var s1 := if m.c1 < m.c2 then RowBlanked(s, m.r1, m.c1 + 1, m.c2, d) else s;
    var s2 := RowsBlanked(s1, m.r1 + 1, m.r2 + 1, m.c1, m.c2, d);
    MergeAddedStages(s, m, d, s1, s2);
    assert forall r: nat :: RowHeightAt(s1.rows, r) ==
             (if r == m.r1 && m.c1 < m.c2 then Some(HeightOf(s.rows, r, d)) else RowHeightAt(s.rows, r)) by {
      if m.c1 < m.c2 {
        RowBlankedEffect(s, m.r1, m.c1 + 1, m.c2, d);
      }
    }
    assert forall r: nat :: RowHeightAt(s2.rows, r) ==
             (if m.r1 + 1 <= r < m.r2 + 1 then Some(HeightOf(s1.rows, r, d)) else RowHeightAt(s1.rows, r)) by {
      RowsBlankedHeights(s1, m.r1 + 1, m.r2 + 1, m.c1, m.c2, d);
    }
    forall r: nat ensures RowHeightAt(s2.rows, r) == if m.BlankedRow(r) then Some(HeightOf(s.rows, r, d)) else RowHeightAt(s.rows, r) {
      if m.r1 < r {
        assert RowHeightAt(s1.rows, r) == RowHeightAt(s.rows, r);
      }
    }
  }

  /** The column records, merge list and used bounds part of MergeAddedEffect. */
  lemma MergeAddedBounds(s: SheetData, m: MergeRange, d: Defaults)
    requires m.WellFormed()
    ensures var s' := MergeAdded(s, m, d);
      var any := m.r1 < m.r2 || m.c1 < m.c2;
      s'.cols == s.cols && s'.merges == s.merges + [m] &&
      s'.lastRow == (if any then Max(s.lastRow, m.r2) else s.lastRow) &&
      s'.lastCol == (if any then Max(s.lastCol, m.c2) else s.lastCol)
  {
    var s1 := if m.c1 < m.c2 then RowBlanked(s, m.r1, m.c1 + 1, m.c2, d) else s;
    var s2 := RowsBlanked(s1, m.r1 + 1, m.r2 + 1, m.c1, m.c2, d);
    MergeAddedStages(s, m, d, s1, s2);
    assert s1.cols == s.cols && s1.merges == s.merges &&
           s1.lastRow == (if m.c1 < m.c2 then Max(s.lastRow, m.r1) else s.lastRow) &&
           s1.lastCol == (if m.c1 < m.c2 then Max(s.lastCol, m.c2) else s.lastCol) by {
      if m.c1 < m.c2 {
        RowBlankedEffect(s, m.r1, m.c1 + 1, m.c2, d);
      }
    }
    assert s2.cols == s1.cols && s2.merges == s1.merges &&
           s2.lastRow == (if m.r1 < m.r2 then Max(s1.lastRow, m.r2) else s1.lastRow) &&
           s2.lastCol == (if m.r1 < m.r2 then Max(s1.lastCol, m.c2) else s1.lastCol) by {
      RowsBlankedBounds(s1, m.r1 + 1, m.r2 + 1, m.c1, m.c2, d);
    }
  }

  /**
    `write_merge` blanks every cell of the range, anchor included, gives a
    record to every row of it, raises the used bounds to its bottom row and
    right column, and registers the range last.
   */
  lemma MergeWrittenEffect(s: SheetData, m: MergeRange, d: Defaults)
    requires m.WellFormed()
    ensures var s' := MergeWritten(s, m, d);
      forall r: nat, c: nat :: GetCell(s'.rows, r, c) == if m.Contains(r, c) then Some(Cell(Blank, d.xf)) else GetCell(s.rows, r, c)
    ensures var s' := MergeWritten(s, m, d);
      forall r: nat :: RowHeightAt(s'.rows, r) == if m.r1 <= r <= m.r2 then Some(HeightOf(s.rows, r, d)) else RowHeightAt(s.rows, r)
    ensures var s' := MergeWritten(s, m, d);
      s'.cols == s.cols && s'.merges == s.merges + [m] &&
      s'.lastRow == Max(s.lastRow, m.r2) && s'.lastCol == Max(s.lastCol, m.c2)
  {
    var s1 := CellWritten(s, m.r1, m.c1, Blank, d);
    MergeAddedEffect(s1, m, d);
    forall r: nat, c: nat ensures GetCell(s1.rows, r, c) == if r == m.r1 && c == m.c1 then Some(Cell(Blank, d.xf)) else GetCell(s.rows, r, c) {
      CellWrittenCellAt(s, m.r1, m.c1, Blank, d, r, c);
    }
  }

  /** One xlwt call on a sheet, as xl.py issues them. */
  datatype SheetOp =
    | ReadCol(c: nat)                   // reading `sheet.col(c).width`
    | ReadRow(r: nat)                   // reading `sheet.row(r).height`
    | WriteCell(r: nat, c: nat, v: Value)
    | Restyle(r: nat, c: nat, xf: int)  // the cell found at (r, c), if any, takes style xf
    | SetWidth(c: nat, w: int)
    | SetHeight(r: nat, h: int)

  /** The sheet after one call. */
  function Applied(s: SheetData, d: Defaults, op: SheetOp): SheetData
  {
    match op
    case ReadCol(c) => ColRead(s, c, d)
    case ReadRow(r) => RowRead(s, r, d)
    case WriteCell(r, c, v) => CellWritten(s, r, c, v, d)
    case Restyle(r, c, xf) => if GetCell(s.rows, r, c).Some? then XfSet(s, r, c, xf) else s
    case SetWidth(c, w) => ColWidthSet(s, c, w)
    case SetHeight(r, h) => RowHeightSet(s, r, h)
  }

  /** A log of xlwt calls: the calls made before, then the last one. */
  datatype CallLog = NoCalls | Then(earlier: CallLog, last: SheetOp)

  /** The log with `op` added when `b` holds. */
  function ThenIf(log: CallLog, b: bool, op: SheetOp): CallLog
  {
    if b then Then(log, op) else log
  }

  /** The sheet after the calls of the log, in order. */
  function Replay(s: SheetData, d: Defaults, log: CallLog): SheetData
  {
    match log
    case NoCalls => s
    case Then(earlier, op) => Applied(Replay(s, d, earlier), d, op)
  }

  /** Replaying a call that is logged only when `b` holds. */
  lemma ReplayThenIf(s: SheetData, d: Defaults, log: CallLog, b: bool, op: SheetOp)
    ensures Replay(s, d, ThenIf(log, b, op)) == if b then Applied(Replay(s, d, log), d, op) else Replay(s, d, log)
  {
  }

  class Sheet {
    var rows: map<nat, Row>
    var cols: map<nat, int>
    var mergedRanges: seq<MergeRange>
    var lastUsedRow: nat
    var lastUsedCol: nat
    const defaults: Defaults

    function Data(): SheetData
      reads this
    {
      SheetData(rows, cols, mergedRanges, lastUsedRow, lastUsedCol)
    }

    ghost predicate Valid()
      reads this
    {
      Data().Valid()
    }

    /** A new, empty sheet. */
    constructor (d: Defaults)
      ensures Valid() && defaults == d
      ensures Data() == SheetData(map[], map[], [], 0, 0)
    {
      rows, cols, mergedRanges := map[], map[], [];
      lastUsedRow, lastUsedCol := 0, 0;
      defaults := d;
    }

    /** `sheet.row(r).height`. */
    method RowHeight(r: nat) returns (h: int)
      requires Valid()
      modifies this
      ensures Valid()
      ensures h == HeightOf(old(rows), r, defaults)
      ensures Data() == RowRead(old(Data()), r, defaults)
    {
      h := HeightOf(rows, r, defaults);
      rows := rows[r := Row(h, CellsOf(rows, r))];
      lastUsedRow := Max(lastUsedRow, r);
    }

    /** `sheet.col(c).width`. */
    method ColWidth(c: nat) returns (w: int)
      requires Valid()
      modifies this
      ensures Valid()
      ensures w == WidthOf(old(cols), c, defaults)
      ensures Data() == ColRead(old(Data()), c, defaults)
    {
      w := WidthOf(cols, c, defaults);
      cols := cols[c := w];
    }

    /** `sheet.col(c).width = w`. */
    method SetColWidth(c: nat, w: int)
      requires Valid()
      modifies this
      ensures Valid()
      ensures Data() == ColWidthSet(old(Data()), c, w)
    {
      cols := cols[c := w];
    }

    /** `sheet.row(r).height = h`. */
    method SetRowHeight(r: nat, h: int)
      requires Valid()
      modifies this
      ensures Valid()
      ensures Data() == RowHeightSet(old(Data()), r, h)
    {
      rows := rows[r := Row(h, CellsOf(rows, r))];
      lastUsedRow := Max(lastUsedRow, r);
    }

    /** `sheet.write(r, c, v)`. */
    method Write(r: nat, c: nat, v: Value)
      requires Valid()
      modifies this
      ensures Valid()
      ensures Data() == CellWritten(old(Data()), r, c, v, defaults)
    {
      rows := rows[r := Row(HeightOf(rows, r, defaults), CellsOf(rows, r)[c := Cell(v, defaults.xf)])];
      lastUsedRow := Max(lastUsedRow, r);
      lastUsedCol := Max(lastUsedCol, c);
    }

    /** `cell.xf_idx = xf` on an existing cell. */
    method SetXf(r: nat, c: nat, xf: int)
      requires Valid()
      requires r in rows && c in rows[r].cells
      modifies this
      ensures Valid()
      ensures Data() == XfSet(old(Data()), r, c, xf)
    {
      rows := rows[r := rows[r].(cells := rows[r].cells[c := rows[r].cells[c].(xf := xf)])];
    }

    /** `row.write_blanks(c1, c2)` on an existing row record, with the default style. */
    method WriteBlanks(r: nat, c1: nat, c2: nat)
      requires Valid()
      requires r in rows
      modifies this
      ensures Valid()
      ensures Data() == BlanksWritten(old(Data()), r, c1, c2, defaults.xf)
    {
      BlankRunEffect(rows[r].cells, c1, c2, defaults.xf);
      rows := rows[r := rows[r].(cells := BlankRun(rows[r].cells, c1, c2, defaults.xf))];
      lastUsedCol := Max(lastUsedCol, c2);
    }

    /** `sheet.row(r).write_blanks(c1, c2)`: the row record is created when missing. */
    method RowWriteBlanks(r: nat, c1: nat, c2: nat)
      requires Valid()
      modifies this
      ensures Valid()
      ensures Data() == RowBlanked(old(Data()), r, c1, c2, defaults)
    {
      var _ := RowHeight(r);
      WriteBlanks(r, c1, c2);
    }

    /** `write_blanks(c1, c2)` on rows lo..hi-1, in order, as `merge` does below the anchor row. */
    method RowsWriteBlanks(lo: nat, hi: nat, c1: nat, c2: nat)
      requires Valid() && lo <= hi
      modifies this
      ensures Valid()
      ensures Data() == RowsBlanked(old(Data()), lo, hi, c1, c2, defaults)
    {
      ghost var start := Data();
      var r := lo;
      while r < hi
        invariant lo <= r <= hi
        invariant Valid()
        invariant Data() == RowsBlanked(start, lo, r, c1, c2, defaults)
      {
        ghost var done := Data();
        RowWriteBlanks(r, c1, c2);
        assert RowsBlanked(start, lo, r + 1, c1, c2, defaults) == RowBlanked(done, r, c1, c2, defaults);
        r := r + 1;
      }
    }

    /** `sheet.merge(r1, r2, c1, c2)`; the library asserts the range is well formed. */
    method Merge(r1: nat, r2: nat, c1: nat, c2: nat)
      requires Valid()
      requires r1 <= r2 && c1 <= c2
      modifies this
      ensures Valid()
      ensures Data() == MergeAdded(old(Data()), MergeRange(r1, r2, c1, c2), defaults)
    {
      ghost var start := Data();
      var m := MergeRange(r1, r2, c1, c2);
      if c1 < c2 {
        RowWriteBlanks(r1, c1 + 1, c2);
      }
      ghost var top := Data();
      RowsWriteBlanks(r1 + 1, r2 + 1, c1, c2);
      ghost var blanked := Data();
      mergedRanges := mergedRanges + [m];
      assert AllWellFormed(blanked.merges + [m]) by {
        assert blanked.Valid();
      }
      MergeAddedStages(start, m, defaults, top, blanked);
    }

    /** `sheet.write_merge(r1, r2, c1, c2, '')`. */
    method WriteMerge(r1: nat, r2: nat, c1: nat, c2: nat)
      requires Valid()
      requires r1 <= r2 && c1 <= c2
      modifies this
      ensures Valid()
      ensures Data() == MergeWritten(old(Data()), MergeRange(r1, r2, c1, c2), defaults)
    {
      Write(r1, c1, Blank);
      Merge(r1, r2, c1, c2);
    }

    /** `merged_ranges.remove(m)`: `found` is false where Python raises ValueError, and then nothing changes. */
    method RemoveMerge(m: MergeRange) returns (found: bool)
      requires Valid()
      modifies this
      ensures Valid()
      ensures found <==> m in old(mergedRanges)
      ensures Data() == MergeRemoved(old(Data()), m)
    {
      found := m in mergedRanges;
      RemoveFirstEffect(mergedRanges, m);
      RemoveFirstKeepsWellFormed(mergedRanges, m);
      mergedRanges := RemoveFirst(mergedRanges, m);
    }
  }

  /** Removing an entry keeps every remaining range well formed. */
  lemma {:induction false} RemoveFirstKeepsWellFormed(ms: seq<MergeRange>, m: MergeRange)
    ensures AllWellFormed(ms) ==> AllWellFormed(RemoveFirst(ms, m))
  {
    if |ms| > 0 && ms[0] != m {
      RemoveFirstKeepsWellFormed(ms[1..], m);
      var r := RemoveFirst(ms, m);
      assert r == [ms[0]] + RemoveFirst(ms[1..], m);
      if AllWellFormed(ms) {
        forall i | 0 <= i < |r| ensures r[i].WellFormed() {
          if i > 0 {
            assert r[i] == RemoveFirst(ms[1..], m)[i - 1];
            assert forall j :: 0 <= j < |ms[1..]| ==> ms[1..][j] == ms[j + 1];
          }
        }
      }
    }
  }
}
