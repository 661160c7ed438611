/**
  What `insert_rows` does to a sheet, in closed form.

  The engine visits source rows from the last used row down to the insertion
  row and, within a row, columns from 0 up to the last used column; after the
  columns of a row it blanks that row. A cursor (row, col) names a point of
  that walk: every row below `row` (larger index) is finished, and row `row`
  has had its columns before `col` copied but is not yet blanked. The functions
  below give the sheet at any cursor, so they serve both as the loop
  invariants of `Xl.InsertRows` and, at the final cursor, as its result.
 */
module ShiftSpec {
  import opened Cells
  import opened Merges
  import opened Worksheet

  /** The height given to a source row once it has been copied down. */
  const ClearedRowHeight: int := 256

  /**
    One call of insert_rows: the sheet on entry, the library defaults, the
    dimensions of the sheet xlrd reads back, the 0-based insertion row and the
    number of rows inserted.
   */
  datatype Insertion = Insertion(before: SheetData, defaults: Defaults, size: ReadBack, at: nat, amount: nat)

  /**
    The merged ranges on entry are well formed and no two share a cell, as a
    sheet's merged cells are in Excel. The closed form below is stated for
    such sheets.
   */
  predicate DisjointRanges(ins: Insertion)
  {
    AllWellFormed(ins.before.merges) && NonOverlapping(ins.before.merges)
  }

  /** Column c of source row s has been copied down by the time the walk reaches (row, col). */
  ghost predicate Copied(ins: Insertion, row: int, col: nat, s: nat, c: nat)
  {
    s <= ins.before.lastRow && c <= ins.before.lastCol &&
    (row < s || (s == row && c < col)) &&
    !IsSkipCell(ins.before.merges, s, c)
  }

  /** Some column of source row s has been copied down by (row, col). */
  ghost predicate AnyCopied(ins: Insertion, row: int, col: nat, s: nat)
  {
    exists c: nat :: Copied(ins, row, col, s, c)
  }

  /** Row s has a column the walk does not skip. */
  ghost predicate HasCopy(ins: Insertion, s: nat)
  {
    exists c: nat :: c <= ins.before.lastCol && !IsSkipCell(ins.before.merges, s, c)
  }

  /** Every cell of source row s that the walk does not skip lies inside the read-back sheet. */
  ghost predicate RowReadable(ins: Insertion, s: nat)
  {
    forall c: nat :: c <= ins.before.lastCol && !IsSkipCell(ins.before.merges, s, c) ==> Readable(ins.size, s, c)
  }

  /**
    The walk gets through source row s: every cell it reads can be read back
    (no IndexError), and the row can be looked up in the sheet's row records
    when it is blanked, because it had a record or a copied column created one
    (no KeyError).
   */
  ghost predicate RowCompletes(ins: Insertion, s: nat)
  {
    RowReadable(ins, s) && (s in ins.before.rows || HasCopy(ins, s))
  }

  /** The walk gets through every source row from the insertion row down to the last used row. */
  ghost predicate RowsComplete(ins: Insertion)
  {
    forall s: nat :: ins.at <= s <= ins.before.lastRow ==> RowCompletes(ins, s)
  }

  /** The range, if any, moved down by `amount` rows. */
  function Moved(m: Option<MergeRange>, amount: nat): Option<MergeRange>
  {
    if m.Some? then Some(m.value.Shifted(amount)) else None
  }

  /**
    The range the column loop writes with `write_merge` at (row, col) of a
    sheet whose merge list is ms: the one found there, moved down, unless the
    cell is skipped.
   */
  function FillOf(ms: seq<MergeRange>, row: nat, col: nat, amount: nat): Option<MergeRange>
  {
    if IsSkipCell(ms, row, col) then None else Moved(FindMerge(ms, row, col), amount)
  }

  /** The range the walk writes with `write_merge` when it reaches (row, col). */
  function FillAt(ins: Insertion, row: nat, col: nat): Option<MergeRange>
  {
    FillOf(ins.before.merges, row, col, ins.amount)
  }

  /** The range, if any, as a list. */
  function Listed(m: Option<MergeRange>): seq<MergeRange>
  {
    if m.Some? then [m.value] else []
  }

  /** The bottom row of the range, 0 when there is none. */
  function Bottom(m: Option<MergeRange>): nat
  {
    if m.Some? then m.value.r2 else 0
  }

  /** The right column of the range, 0 when there is none. */
  function Right(m: Option<MergeRange>): nat
  {
    if m.Some? then m.value.c2 else 0
  }

  /** (r, c) lies in the range, if any, and is not its anchor. */
  predicate FillBlanks(m: Option<MergeRange>, r: nat, c: nat)
  {
    m.Some? && m.value.Contains(r, c) && !m.value.IsAnchor(r, c)
  }

  /** Row r is one `merge` of the range, if any, writes blanks in. */
  predicate FillRow(m: Option<MergeRange>, r: nat)
  {
    m.Some? && m.value.BlankedRow(r)
  }

  /** (r, c) lies in one of the ranges xs and is not its anchor: a cell their merges blank. */
  ghost predicate MergeBlank(xs: seq<MergeRange>, r: nat, c: nat)
  {
    MergeBlankIn(xs, |xs|, r, c)
  }

  /** MergeBlank for the first n ranges of xs. */
  ghost predicate MergeBlankIn(xs: seq<MergeRange>, n: nat, r: nat, c: nat)
    requires n <= |xs|
  {
    n > 0 && (MergeBlankIn(xs, n - 1, r, c) || FillBlanks(Some(xs[n - 1]), r, c))
  }

  /** Row r is one the merges of the ranges xs write blanks in. */
  ghost predicate MergeRow(xs: seq<MergeRange>, r: nat)
  {
    MergeRowIn(xs, |xs|, r)
  }

  /** MergeRow for the first n ranges of xs. */
  ghost predicate MergeRowIn(xs: seq<MergeRange>, n: nat, r: nat)
    requires n <= |xs|
  {
    n > 0 && (MergeRowIn(xs, n - 1, r) || FillRow(Some(xs[n - 1]), r))
  }

  /** The bottom row of the lowest-reaching range of xs; -1 when there is none. */
  function DeepestRow(xs: seq<MergeRange>): int
  {
    DeepestRowIn(xs, |xs|)
  }

  /** DeepestRow of the first n ranges of xs. */
  function DeepestRowIn(xs: seq<MergeRange>, n: nat): int
    requires n <= |xs|
  {
    if n == 0 then -1
    else
      var d := DeepestRowIn(xs, n - 1);
      if d < xs[n - 1].r2 then xs[n - 1].r2 else d
  }

  /** The right column of the furthest-reaching range of xs; -1 when there is none. */
  function RightmostCol(xs: seq<MergeRange>): int
  {
    RightmostColIn(xs, |xs|)
  }

  /** RightmostCol of the first n ranges of xs. */
  function RightmostColIn(xs: seq<MergeRange>, n: nat): int
    requires n <= |xs|
  {
    if n == 0 then -1
    else
      var d := RightmostColIn(xs, n - 1);
      if d < xs[n - 1].c2 then xs[n - 1].c2 else d
  }

  /** Ranges appended after the first n do not change what the first n blank or how far they reach. */
  lemma {:induction false} PrefixUnchanged(xs: seq<MergeRange>, ys: seq<MergeRange>, n: nat)
    requires n <= |xs|
    ensures forall r: nat, c: nat :: MergeBlankIn(xs + ys, n, r, c) == MergeBlankIn(xs, n, r, c)
    ensures forall r: nat :: MergeRowIn(xs + ys, n, r) == MergeRowIn(xs, n, r)
    ensures DeepestRowIn(xs + ys, n) == DeepestRowIn(xs, n)
    ensures RightmostColIn(xs + ys, n) == RightmostColIn(xs, n)
  {
    if n > 0 {
      PrefixUnchanged(xs, ys, n - 1);
      assert (xs + ys)[n - 1] == xs[n - 1];
    }
  }

  /** Every range of xs starts below row `row`. */
  predicate Below(xs: seq<MergeRange>, row: int)
  {
    forall x :: x in xs ==> row < x.r1
  }

  /**
    The cell at (r, c) once the walk has reached (row, col) and the ranges xs
    have been written: a copied cell, a blank of a written range or of a
    finished source row, or the cell on entry.
   */
  ghost function CellAfter(ins: Insertion, row: int, col: nat, xs: seq<MergeRange>, r: nat, c: nat): Option<Cell>
  {
    var g := ins.before;
    var a := ins.amount;
    if r >= a && Copied(ins, row, col, r - a, c) then
      Some(Cell(SnapshotValue(g.rows, r - a, c), StyleAt(g.rows, r - a, c, ins.defaults)))
    else if MergeBlank(xs, r, c) || (row < r <= g.lastRow && c <= g.lastCol) then
      Some(Cell(Blank, ins.defaults.xf))
    else
      GetCell(g.rows, r, c)
  }

  /** The height row record r has, when it exists, once the walk has reached (row, col). */
  ghost function HeightAfter(ins: Insertion, row: int, col: nat, r: nat): int
  {
    var g := ins.before;
    var a := ins.amount;
    var d := ins.defaults;
    if r >= a && AnyCopied(ins, row, col, r - a) && HeightOf(g.rows, r - a, d) != 0 then HeightOf(g.rows, r - a, d)
    else if row < r <= g.lastRow then ClearedRowHeight
    else HeightOf(g.rows, r, d)
  }

  /** The height of row record r, when it exists, once the walk has reached (row, col) and the ranges xs have been written. */
  ghost function RowAfter(ins: Insertion, row: int, col: nat, xs: seq<MergeRange>, r: nat): Option<int>
  {
    var g := ins.before;
    var a := ins.amount;
    if r in g.rows || row < r <= g.lastRow || AnyCopied(ins, row, col, r) ||
       (r >= a && AnyCopied(ins, row, col, r - a)) || MergeRow(xs, r)
    then Some(HeightAfter(ins, row, col, r))
    else None
  }

  /** The width of column record c, when it exists, once the walk has reached (row, col). */
  ghost function ColAfter(ins: Insertion, row: int, col: nat, c: nat): Option<int>
  {
    if c in ins.before.cols then Some(ins.before.cols[c])
    else if exists s: nat :: Copied(ins, row, col, s, c) then Some(ins.defaults.width)
    else None
  }

  /**
    `v` is the last used row once the walk has reached (row, col) and the
    ranges xs have been written: the largest of the old one, the destination
    rows written and the bottom rows of xs.
   */
  ghost predicate IsLastRowAfter(ins: Insertion, row: int, col: nat, xs: seq<MergeRange>, v: nat)
  {
    ins.before.lastRow <= v &&
    (forall s: nat :: AnyCopied(ins, row, col, s) ==> s + ins.amount <= v) &&
    DeepestRow(xs) <= v &&
    (v == ins.before.lastRow || (exists s: nat :: AnyCopied(ins, row, col, s) && v == s + ins.amount) ||
     v == DeepestRow(xs))
  }

  /** `v` is the last used column once the ranges xs have been written: the larger of the old one and their right columns. */
  ghost predicate IsLastColAfter(ins: Insertion, xs: seq<MergeRange>, v: nat)
  {
    ins.before.lastCol <= v &&
    RightmostCol(xs) <= v && (v == ins.before.lastCol || v == RightmostCol(xs))
  }

  /** The ranges registered, in order, while copying anchors of row s in columns before `upto`. */
  function RowAppends(ins: Insertion, s: nat, upto: nat): seq<MergeRange>
  {
    if upto == 0 then [] else RowAppends(ins, s, upto - 1) + Listed(FillAt(ins, s, upto - 1))
  }

  /** The ranges registered, in order, while copying rows lastRow down to row + 1. */
  function Appended(ins: Insertion, row: int): seq<MergeRange>
    requires row >= -1
    decreases ins.before.lastRow - row
  {
    if row >= ins.before.lastRow then []
    else Appended(ins, row + 1) + RowAppends(ins, row + 1, ins.before.lastCol + 1)
  }

  /** The ranges the walk has written with `write_merge` before it reaches (row, col). */
  function Registered(ins: Insertion, row: int, col: nat): seq<MergeRange>
    requires row >= -1
  {
    Appended(ins, row) + (if row >= 0 then RowAppends(ins, row, col) else [])
  }

  /** The merge list once the walk has reached (row, col): the original ranges, then the registered ones. */
  function MergesAfter(ins: Insertion, row: int, col: nat): seq<MergeRange>
    requires row >= -1
  {
    ins.before.merges + Registered(ins, row, col)
  }

  /** The original ranges that lie wholly above the insertion row, in order. */
  function Kept(ms: seq<MergeRange>, at: nat): seq<MergeRange>
  {
    if |ms| == 0 then []
    else
      var m := ms[|ms| - 1];
      Kept(ms[..|ms| - 1], at) + (if m.r1 < at && m.r2 < at then [m] else [])
  }

  /** The original ranges that straddle the insertion row, grown by `amount`, in order. */
  function Grown(ms: seq<MergeRange>, at: nat, amount: nat): seq<MergeRange>
  {
    if |ms| == 0 then []
    else
      var m := ms[|ms| - 1];
      Grown(ms[..|ms| - 1], at, amount) + (if m.r1 < at <= m.r2 then [m.Grown(amount)] else [])
  }

  /** The merge list after reconciliation. */
  function FinalMerges(ins: Insertion): seq<MergeRange>
  {
    var at := ins.at;
    Kept(ins.before.merges, at) + Appended(ins, at - 1) + Grown(ins.before.merges, at, ins.amount)
  }

  /** Every range whose blanks the finished call has written: the moved ones, then the grown ones. */
  function FinalFills(ins: Insertion): seq<MergeRange>
  {
    Appended(ins, ins.at - 1) + Grown(ins.before.merges, ins.at, ins.amount)
  }

  /** Every cell of `rows` is the walk's at (row, col) with the ranges xs written. */
  ghost predicate CellsAt(ins: Insertion, rows: map<nat, Row>, row: int, col: nat, xs: seq<MergeRange>)
  {
    forall r: nat, c: nat {:trigger CellAfter(ins, row, col, xs, r, c)} :: GetCell(rows, r, c) == CellAfter(ins, row, col, xs, r, c)
  }

  /** Every row record of `rows` is the walk's at (row, col) with the ranges xs written. */
  ghost predicate HeightsAt(ins: Insertion, rows: map<nat, Row>, row: int, col: nat, xs: seq<MergeRange>)
  {
    forall r: nat {:trigger RowAfter(ins, row, col, xs, r)} :: RowHeightAt(rows, r) == RowAfter(ins, row, col, xs, r)
  }

  /** Every column record of `cols` is the walk's at (row, col). */
  ghost predicate WidthsAt(ins: Insertion, cols: map<nat, int>, row: int, col: nat)
  {
    forall c: nat {:trigger ColAfter(ins, row, col, c)} :: ColWidthAt(cols, c) == ColAfter(ins, row, col, c)
  }

  /** Row records, column records and used bounds of `s` are those of the walk at (row, col) with the ranges xs written. */
  ghost predicate LayoutAt(ins: Insertion, s: SheetData, row: int, col: nat, xs: seq<MergeRange>)
  {
    HeightsAt(ins, s.rows, row, col, xs) && WidthsAt(ins, s.cols, row, col) &&
    IsLastRowAfter(ins, row, col, xs, s.lastRow) && IsLastColAfter(ins, xs, s.lastCol)
  }

  /**
    When `copy` holds, (row + amount, col) of `rows'` holds `value` in the
    style (row, col) has in `rows`; the other cells of `fill` hold blanks;
    every other cell is as in `rows`.
   */
  ghost predicate CellsCopied(rows: map<nat, Row>, rows': map<nat, Row>, row: nat, col: nat, amount: nat, value: Value, d: Defaults,
                              copy: bool, fill: Option<MergeRange>)
  {
    forall r: nat, c: nat :: GetCell(rows', r, c) ==
      if copy && r == row + amount && c == col then Some(Cell(value, StyleAt(rows, row, col, d)))
      else if FillBlanks(fill, r, c) then Some(Cell(Blank, d.xf))
      else GetCell(rows, r, c)
  }

  /**
    When `copy` holds, rows `row` and `row + amount` of `rows'` have records:
    the source keeps its height, the destination takes it when it is non-zero.
    The rows `fill` blanks have records with the height they read.
   */
  ghost predicate HeightsCopied(rows: map<nat, Row>, rows': map<nat, Row>, row: nat, amount: nat, d: Defaults,
                                copy: bool, fill: Option<MergeRange>)
  {
    var h := HeightOf(rows, row, d);
    forall r: nat :: RowHeightAt(rows', r) ==
      if copy && r == row + amount then Some(if h != 0 then h else HeightOf(rows, row + amount, d))
      else if copy && r == row then Some(h)
      else if FillRow(fill, r) then Some(HeightOf(rows, r, d))
      else RowHeightAt(rows, r)
  }

  /** When `copy` holds, column `col` of `cols'` has a record with the width it reads in `cols`. */
  ghost predicate WidthsCopied(cols: map<nat, int>, cols': map<nat, int>, col: nat, d: Defaults, copy: bool)
  {
    forall c: nat :: ColWidthAt(cols', c) == if copy && c == col then Some(WidthOf(cols, col, d)) else ColWidthAt(cols, c)
  }

  /** The row records, column records, used bounds and merge list insert_rows leaves behind when it completes. */
  ghost predicate InsertedLayout(ins: Insertion, after: SheetData)
  {
    LayoutAt(ins, after, ins.at - 1, 0, FinalFills(ins)) && after.merges == FinalMerges(ins)
  }

  /** `after` is the sheet insert_rows leaves behind when it completes: its layout, and its cells. */
  ghost predicate InsertedAs(ins: Insertion, after: SheetData)
  {
    InsertedLayout(ins, after) && CellsAt(ins, after.rows, ins.at - 1, 0, FinalFills(ins))
  }

  // ---------------------------------------------------------------------------
  // One step of the walk at a time: these lemmas carry the loop invariants of
  // Xl.InsertRows from one cursor to the next.
  // ---------------------------------------------------------------------------

  /** The walk starts with nothing done: at cursor (row, 0) with row at or past the last used row the sheet is the original. */
  lemma WalkNotStarted(ins: Insertion, row: int)
    requires row >= ins.before.lastRow
    ensures CellsAt(ins, ins.before.rows, row, 0, []) && LayoutAt(ins, ins.before, row, 0, [])
    ensures Registered(ins, row, 0) == []
  {
    var g := ins.before;
    forall r: nat ensures RowHeightAt(g.rows, r) == RowAfter(ins, row, 0, [], r) {
      assert !AnyCopied(ins, row, 0, r);
      assert r >= ins.amount ==> !AnyCopied(ins, row, 0, r - ins.amount);
    }
    forall c: nat ensures ColWidthAt(g.cols, c) == ColAfter(ins, row, 0, c) {
      assert !exists s: nat :: Copied(ins, row, 0, s, c);
    }
  }

  /** Copied and AnyCopied grow by (row, col) exactly when that cell is not skipped. */
  lemma CopiedStep(ins: Insertion, row: nat, col: nat, next: nat)
    requires row <= ins.before.lastRow && col <= ins.before.lastCol && next == col + 1
    ensures var step := !IsSkipCell(ins.before.merges, row, col);
      forall s: nat, c: nat :: Copied(ins, row, next, s, c) <==> Copied(ins, row, col, s, c) || (step && s == row && c == col)
    ensures var step := !IsSkipCell(ins.before.merges, row, col);
      forall s: nat :: AnyCopied(ins, row, next, s) <==> AnyCopied(ins, row, col, s) || (step && s == row)
  {
    var step := !IsSkipCell(ins.before.merges, row, col);
    forall s: nat ensures AnyCopied(ins, row, next, s) <==> AnyCopied(ins, row, col, s) || (step && s == row) {
      if step && s == row {
        assert Copied(ins, row, next, s, col);
      }
      if AnyCopied(ins, row, next, s) {
        var c :| Copied(ins, row, next, s, c);
        if !(step && s == row && c == col) {
          assert Copied(ins, row, col, s, c);
        }
      }
      if AnyCopied(ins, row, col, s) {
        var c :| Copied(ins, row, col, s, c);
        assert Copied(ins, row, next, s, c);
      }
    }
  }

  /** Writing one more range adds its cells but the anchor to those blanked. */
  lemma MergeBlankSnoc(xs: seq<MergeRange>, fill: Option<MergeRange>, r: nat, c: nat)
    ensures MergeBlank(xs + Listed(fill), r, c) <==> MergeBlank(xs, r, c) || FillBlanks(fill, r, c)
  {
    if fill.Some? {
      PrefixUnchanged(xs, Listed(fill), |xs|);
    } else {
      assert xs + Listed(fill) == xs;
    }
  }

  /** Writing one more range adds the rows it blanks. */
  lemma MergeRowSnoc(xs: seq<MergeRange>, fill: Option<MergeRange>, r: nat)
    ensures MergeRow(xs + Listed(fill), r) <==> MergeRow(xs, r) || FillRow(fill, r)
  {
    if fill.Some? {
      PrefixUnchanged(xs, Listed(fill), |xs|);
    } else {
      assert xs + Listed(fill) == xs;
    }
  }

  /** The ranges registered up to (row, col + 1) are those up to (row, col) and the one written at (row, col). */
  lemma RegisteredStep(ins: Insertion, row: nat, col: nat, next: nat)
    requires next == col + 1
    ensures Registered(ins, row, next) == Registered(ins, row, col) + Listed(FillAt(ins, row, col))
  {
  }

  /** Moving the cursor from (row, col) to (row, col + 1) adds the blanks of the range written at (row, col). */
  lemma MergeBlankStep(ins: Insertion, row: nat, col: nat, next: nat)
    requires next == col + 1
    ensures forall r: nat, c: nat :: MergeBlank(Registered(ins, row, next), r, c) <==>
              MergeBlank(Registered(ins, row, col), r, c) || FillBlanks(FillAt(ins, row, col), r, c)
  {
    RegisteredStep(ins, row, col, next);
    forall r: nat, c: nat ensures MergeBlank(Registered(ins, row, next), r, c) <==>
                                 MergeBlank(Registered(ins, row, col), r, c) || FillBlanks(FillAt(ins, row, col), r, c) {
      MergeBlankSnoc(Registered(ins, row, col), FillAt(ins, row, col), r, c);
    }
  }

  /** Moving the cursor from (row, col) to (row, col + 1) adds the rows the range written at (row, col) blanks in. */
  lemma MergeRowStep(ins: Insertion, row: nat, col: nat, next: nat)
    requires next == col + 1
    ensures forall r: nat :: MergeRow(Registered(ins, row, next), r) <==>
              MergeRow(Registered(ins, row, col), r) || FillRow(FillAt(ins, row, col), r)
  {
    RegisteredStep(ins, row, col, next);
    forall r: nat ensures MergeRow(Registered(ins, row, next), r) <==>
                         MergeRow(Registered(ins, row, col), r) || FillRow(FillAt(ins, row, col), r) {
      MergeRowSnoc(Registered(ins, row, col), FillAt(ins, row, col), r);
    }
  }

  /**
    With disjoint ranges on entry, no cell a `write_merge` of the walk blanks
    is a destination of the copy: its source is hidden by the range.
   */
  lemma FillMissesCopies(ins: Insertion, row: nat, col: nat, r: nat, c: nat)
    requires DisjointRanges(ins)
    requires FillBlanks(FillAt(ins, row, col), r, c)
    ensures r >= ins.amount && IsSkipCell(ins.before.merges, r - ins.amount, c)
  {
    var ms := ins.before.merges;
    NotSkippedIsAnchor(ms, row, col);
    FindMergeIn(ms, row, col);
    var m := FindMerge(ms, row, col).value;
    var k :| 0 <= k < |ms| && ms[k] == m;
    SkipIffNonAnchor(ms, r - ins.amount, c);
  }

  /**
    With disjoint ranges on entry, no cell the grown range of a straddling
    range blanks is a destination of the copy: its source, if any, is hidden
    by the range.
   */
  lemma GrownMissesCopies(ins: Insertion, m: MergeRange, r: nat, c: nat)
    requires DisjointRanges(ins)
    requires m in ins.before.merges && m.r1 < ins.at <= m.r2
    requires FillBlanks(Some(m.Grown(ins.amount)), r, c)
    ensures !(r >= ins.amount && Copied(ins, ins.at - 1, 0, r - ins.amount, c))
  {
    var ms := ins.before.merges;
    if r >= ins.amount && ins.at <= r - ins.amount {
      var k :| 0 <= k < |ms| && ms[k] == m;
      SkipIffNonAnchor(ms, r - ins.amount, c);
    }
  }

  /** A row record written by a `merge` reads the height the closed form gives it. */
  lemma FillHeight(ins: Insertion, rows: map<nat, Row>, row: int, col: nat, xs: seq<MergeRange>, r: nat)
    requires HeightsAt(ins, rows, row, col, xs)
    ensures HeightOf(rows, r, ins.defaults) == HeightAfter(ins, row, col, r)
  {
    assert RowHeightAt(rows, r) == RowAfter(ins, row, col, xs, r);
  }

  /** Copying (row, col), or skipping it, moves the cells of the walk to cursor (row, next). */
  lemma CellsCopyStep(ins: Insertion, rows: map<nat, Row>, rows': map<nat, Row>, row: nat, col: nat, next: nat,
                      xs: seq<MergeRange>, ys: seq<MergeRange>)
    requires ins.amount >= 1 && row <= ins.before.lastRow && col <= ins.before.lastCol && next == col + 1
    requires DisjointRanges(ins)
    requires Below(xs, row)
    requires forall r: nat, c: nat :: MergeBlank(ys, r, c) <==> MergeBlank(xs, r, c) || FillBlanks(FillAt(ins, row, col), r, c)
    requires CellsAt(ins, rows, row, col, xs)
    requires CellsCopied(rows, rows', row, col, ins.amount, SnapshotValue(ins.before.rows, row, col), ins.defaults,
                         !IsSkipCell(ins.before.merges, row, col), FillAt(ins, row, col))
    ensures CellsAt(ins, rows', row, next, ys)
  {
    var a := ins.amount;
    var step := !IsSkipCell(ins.before.merges, row, col);
    var fill := FillAt(ins, row, col);
    BelowUntouched(xs, row);
    CopiedStep(ins, row, col, next);
    assert GetCell(rows, row, col) == CellAfter(ins, row, col, xs, row, col);
    forall r: nat, c: nat ensures GetCell(rows', r, c) == CellAfter(ins, row, next, ys, r, c) {
      assert GetCell(rows, r, c) == CellAfter(ins, row, col, xs, r, c);
      if r >= a {
        assert Copied(ins, row, next, r - a, c) <==> Copied(ins, row, col, r - a, c) || (step && r - a == row && c == col);
      }
      if FillBlanks(fill, r, c) {
        FillMissesCopies(ins, row, col, r, c);
      }
    }
  }

  /** Copying (row, col), or skipping it, moves the row records of the walk to cursor (row, next). */
  lemma HeightsCopyStep(ins: Insertion, rows: map<nat, Row>, rows': map<nat, Row>, row: nat, col: nat, next: nat,
                        xs: seq<MergeRange>, ys: seq<MergeRange>)
    requires ins.amount >= 1 && row <= ins.before.lastRow && col <= ins.before.lastCol && next == col + 1
    requires forall r: nat :: MergeRow(ys, r) <==> MergeRow(xs, r) || FillRow(FillAt(ins, row, col), r)
    requires HeightsAt(ins, rows, row, col, xs)
    requires HeightsCopied(rows, rows', row, ins.amount, ins.defaults, !IsSkipCell(ins.before.merges, row, col), FillAt(ins, row, col))
    ensures HeightsAt(ins, rows', row, next, ys)
  {
    var a := ins.amount;
    var step := !IsSkipCell(ins.before.merges, row, col);
    var fill := FillAt(ins, row, col);
    CopiedStep(ins, row, col, next);
    assert RowHeightAt(rows, row) == RowAfter(ins, row, col, xs, row);
    assert RowHeightAt(rows, row + a) == RowAfter(ins, row, col, xs, row + a);
    assert row >= a ==> !AnyCopied(ins, row, col, row - a) && !AnyCopied(ins, row, next, row - a);
    forall r: nat ensures RowHeightAt(rows', r) == RowAfter(ins, row, next, ys, r) {
      assert RowHeightAt(rows, r) == RowAfter(ins, row, col, xs, r);
      if r >= a {
        assert AnyCopied(ins, row, next, r - a) <==> AnyCopied(ins, row, col, r - a) || (step && r - a == row);
      }
      assert AnyCopied(ins, row, next, r) <==> AnyCopied(ins, row, col, r) || (step && r == row);
      if FillRow(fill, r) {
        FillHeight(ins, rows, row, col, xs, r);
      }
    }
  }

  /** Copying (row, col), or skipping it, moves the column records of the walk to cursor (row, next). */
  lemma WidthsCopyStep(ins: Insertion, cols: map<nat, int>, cols': map<nat, int>, row: nat, col: nat, next: nat)
    requires row <= ins.before.lastRow && col <= ins.before.lastCol && next == col + 1
    requires WidthsAt(ins, cols, row, col)
    requires WidthsCopied(cols, cols', col, ins.defaults, !IsSkipCell(ins.before.merges, row, col))
    ensures WidthsAt(ins, cols', row, next)
  {
    var step := !IsSkipCell(ins.before.merges, row, col);
    assert ColWidthAt(cols, col) == ColAfter(ins, row, col, col);
    forall c: nat ensures ColWidthAt(cols', c) == ColAfter(ins, row, next, c) {
      assert ColWidthAt(cols, c) == ColAfter(ins, row, col, c);
      if step && c == col {
        assert Copied(ins, row, next, row, col);
      } else {
        if exists s: nat :: Copied(ins, row, next, s, c) {
          var s :| Copied(ins, row, next, s, c);
          assert Copied(ins, row, col, s, c);
        }
        if exists s: nat :: Copied(ins, row, col, s, c) {
          var s :| Copied(ins, row, col, s, c);
          assert Copied(ins, row, next, s, c);
        }
      }
    }
  }

  /** MergeBlankIn in terms of indices. */
  lemma {:induction false} MergeBlankInIndices(xs: seq<MergeRange>, n: nat, r: nat, c: nat)
    requires n <= |xs|
    ensures MergeBlankIn(xs, n, r, c) <==> exists j :: 0 <= j < n && xs[j].Contains(r, c) && !xs[j].IsAnchor(r, c)
  {
    if n > 0 {
      MergeBlankInIndices(xs, n - 1, r, c);
    }
  }

  /** MergeRowIn in terms of indices. */
  lemma {:induction false} MergeRowInIndices(xs: seq<MergeRange>, n: nat, r: nat)
    requires n <= |xs|
    ensures MergeRowIn(xs, n, r) <==> exists j :: 0 <= j < n && xs[j].BlankedRow(r)
  {
    if n > 0 {
      MergeRowInIndices(xs, n - 1, r);
    }
  }

  /** DeepestRowIn is the largest bottom row of the first n ranges, and one of them when n > 0. */
  lemma {:induction false} DeepestRowInIndices(xs: seq<MergeRange>, n: nat)
    requires n <= |xs|
    ensures forall j :: 0 <= j < n ==> xs[j].r2 <= DeepestRowIn(xs, n)
    ensures n == 0 ==> DeepestRowIn(xs, n) == -1
    ensures n > 0 ==> exists j :: 0 <= j < n && xs[j].r2 == DeepestRowIn(xs, n)
  {
    if n > 0 {
      DeepestRowInIndices(xs, n - 1);
    }
  }

  /** RightmostColIn is the largest right column of the first n ranges, and one of them when n > 0. */
  lemma {:induction false} RightmostColInIndices(xs: seq<MergeRange>, n: nat)
    requires n <= |xs|
    ensures forall j :: 0 <= j < n ==> xs[j].c2 <= RightmostColIn(xs, n)
    ensures n == 0 ==> RightmostColIn(xs, n) == -1
    ensures n > 0 ==> exists j :: 0 <= j < n && xs[j].c2 == RightmostColIn(xs, n)
  {
    if n > 0 {
      RightmostColInIndices(xs, n - 1);
    }
  }

  /** MergeBlank in terms of membership: some range of xs holds (r, c) and does not anchor there. */
  lemma MergeBlankMembers(xs: seq<MergeRange>, r: nat, c: nat)
    ensures MergeBlank(xs, r, c) <==> exists x :: x in xs && x.Contains(r, c) && !x.IsAnchor(r, c)
  {
    MergeBlankInIndices(xs, |xs|, r, c);
    if exists x :: x in xs && x.Contains(r, c) && !x.IsAnchor(r, c) {
      var x :| x in xs && x.Contains(r, c) && !x.IsAnchor(r, c);
      var j :| 0 <= j < |xs| && xs[j] == x;
    }
  }

  /** MergeRow in terms of membership: some range of xs blanks in row r. */
  lemma MergeRowMembers(xs: seq<MergeRange>, r: nat)
    ensures MergeRow(xs, r) <==> exists x :: x in xs && x.BlankedRow(r)
  {
    MergeRowInIndices(xs, |xs|, r);
    if exists x :: x in xs && x.BlankedRow(r) {
      var x :| x in xs && x.BlankedRow(r);
      var j :| 0 <= j < |xs| && xs[j] == x;
    }
  }

  /** No range lying wholly below `row` blanks anything in it. */
  lemma BelowUntouched(xs: seq<MergeRange>, row: nat)
    requires Below(xs, row)
    ensures !MergeRow(xs, row)
    ensures forall c: nat :: !MergeBlank(xs, row, c)
  {
    MergeRowMembers(xs, row);
    forall c: nat ensures !MergeBlank(xs, row, c) {
      MergeBlankMembers(xs, row, c);
    }
  }

  /** DeepestRow is the largest bottom row of xs, and one of them when xs is not empty. */
  lemma DeepestRowMembers(xs: seq<MergeRange>)
    ensures forall x :: x in xs ==> x.r2 <= DeepestRow(xs)
    ensures |xs| == 0 ==> DeepestRow(xs) == -1
    ensures |xs| > 0 ==> exists x :: x in xs && x.r2 == DeepestRow(xs)
  {
    DeepestRowInIndices(xs, |xs|);
    forall x | x in xs ensures x.r2 <= DeepestRow(xs) {
      var j :| 0 <= j < |xs| && xs[j] == x;
    }
  }

  /** RightmostCol is the largest right column of xs, and one of them when xs is not empty. */
  lemma RightmostColMembers(xs: seq<MergeRange>)
    ensures forall x :: x in xs ==> x.c2 <= RightmostCol(xs)
    ensures |xs| == 0 ==> RightmostCol(xs) == -1
    ensures |xs| > 0 ==> exists x :: x in xs && x.c2 == RightmostCol(xs)
  {
    RightmostColInIndices(xs, |xs|);
    forall x | x in xs ensures x.c2 <= RightmostCol(xs) {
      var j :| 0 <= j < |xs| && xs[j] == x;
    }
  }

  /** Writing one more range lowers the last used row to its bottom row when that lies below. */
  lemma LastRowFillStep(ins: Insertion, row: int, col: nat, xs: seq<MergeRange>, fill: Option<MergeRange>, v: nat)
    requires IsLastRowAfter(ins, row, col, xs, v)
    ensures IsLastRowAfter(ins, row, col, xs + Listed(fill), Max(v, Bottom(fill)))
  {
    if fill.Some? {
      PrefixUnchanged(xs, Listed(fill), |xs|);
    } else {
      assert xs + Listed(fill) == xs;
    }
  }

  /** Writing one more range moves the last used column to its right column when that lies further right. */
  lemma LastColFillStep(ins: Insertion, xs: seq<MergeRange>, fill: Option<MergeRange>, v: nat)
    requires IsLastColAfter(ins, xs, v)
    ensures IsLastColAfter(ins, xs + Listed(fill), Max(v, Right(fill)))
  {
    if fill.Some? {
      PrefixUnchanged(xs, Listed(fill), |xs|);
    } else {
      assert xs + Listed(fill) == xs;
    }
  }

  /** Copying (row, col) makes its destination row the last used one when it lies below it. */
  lemma LastRowCopyStep(ins: Insertion, xs: seq<MergeRange>, v: nat, v': nat, row: nat, col: nat, next: nat)
    requires row <= ins.before.lastRow && col <= ins.before.lastCol && next == col + 1
    requires IsLastRowAfter(ins, row, col, xs, v)
    requires v' == if !IsSkipCell(ins.before.merges, row, col) then Max(Max(v, row), row + ins.amount) else v
    ensures IsLastRowAfter(ins, row, next, xs, v')
  {
    var a := ins.amount;
    var step := !IsSkipCell(ins.before.merges, row, col);
    CopiedStep(ins, row, col, next);
    forall s: nat | AnyCopied(ins, row, next, s) ensures s + a <= v' {
      assert AnyCopied(ins, row, col, s) || (step && s == row);
    }
    if v != ins.before.lastRow && v != DeepestRow(xs) {
      var s :| AnyCopied(ins, row, col, s) && v == s + a;
      assert AnyCopied(ins, row, next, s);
    }
    if step {
      assert AnyCopied(ins, row, next, row);
    }
  }

  /** Blanking source row `row` (after all its columns) moves the cursor to (row - 1, 0) = (prev, 0). */
  lemma BlankStep(ins: Insertion, row: nat, prev: int, xs: seq<MergeRange>)
    requires row <= ins.before.lastRow && ins.amount >= 1
    requires prev + 1 == row
    requires Below(xs, row)
    ensures var k := ins.before.lastCol;
      forall r: nat, c: nat :: CellAfter(ins, prev, 0, xs, r, c) ==
        if r == row && c <= k then Some(Cell(Blank, ins.defaults.xf)) else CellAfter(ins, row, k + 1, xs, r, c)
    ensures var k := ins.before.lastCol;
      forall r: nat :: RowAfter(ins, prev, 0, xs, r) ==
        if r == row then Some(ClearedRowHeight) else RowAfter(ins, row, k + 1, xs, r)
    ensures var k := ins.before.lastCol;
      forall c: nat :: ColAfter(ins, prev, 0, c) == ColAfter(ins, row, k + 1, c)
    ensures var k := ins.before.lastCol;
      forall v: nat :: IsLastRowAfter(ins, prev, 0, xs, v) == IsLastRowAfter(ins, row, k + 1, xs, v)
    ensures var k := ins.before.lastCol;
      RowAfter(ins, row, k + 1, xs, row).Some? <==> row in ins.before.rows || HasCopy(ins, row)
    ensures Registered(ins, prev, 0) == Registered(ins, row, ins.before.lastCol + 1)
  {
    var k := ins.before.lastCol;
    var end := k + 1;
    var a := ins.amount;
    forall s: nat, c: nat ensures Copied(ins, prev, 0, s, c) <==> Copied(ins, row, end, s, c) {
    }
    forall s: nat ensures AnyCopied(ins, prev, 0, s) <==> AnyCopied(ins, row, end, s) {
      if AnyCopied(ins, prev, 0, s) {
        var c :| Copied(ins, prev, 0, s, c);
        assert Copied(ins, row, end, s, c);
      }
      if AnyCopied(ins, row, end, s) {
        var c :| Copied(ins, row, end, s, c);
        assert Copied(ins, prev, 0, s, c);
      }
    }
    BelowUntouched(xs, row);
    forall r: nat, c: nat ensures CellAfter(ins, prev, 0, xs, r, c) ==
        if r == row && c <= k then Some(Cell(Blank, ins.defaults.xf)) else CellAfter(ins, row, end, xs, r, c)
    {
      if r >= a {
        assert Copied(ins, prev, 0, r - a, c) <==> Copied(ins, row, end, r - a, c);
      }
    }
    forall r: nat ensures RowAfter(ins, prev, 0, xs, r) == if r == row then Some(ClearedRowHeight) else RowAfter(ins, row, end, xs, r) {
      if r >= a {
        assert AnyCopied(ins, prev, 0, r - a) <==> AnyCopied(ins, row, end, r - a);
      }
      assert AnyCopied(ins, prev, 0, r) <==> AnyCopied(ins, row, end, r);
      if r == row {
        assert r >= a ==> !AnyCopied(ins, prev, 0, r - a);
      }
    }
    forall c: nat ensures ColAfter(ins, prev, 0, c) == ColAfter(ins, row, end, c) {
      if exists s: nat :: Copied(ins, prev, 0, s, c) {
        var s :| Copied(ins, prev, 0, s, c);
        assert Copied(ins, row, end, s, c);
      }
      if exists s: nat :: Copied(ins, row, end, s, c) {
        var s :| Copied(ins, row, end, s, c);
        assert Copied(ins, prev, 0, s, c);
      }
    }
    if HasCopy(ins, row) {
      var c :| c <= k && !IsSkipCell(ins.before.merges, row, c);
      assert Copied(ins, row, end, row, c);
    }
    if AnyCopied(ins, row, end, row) {
      var c :| Copied(ins, row, end, row, c);
    }
    assert row >= a ==> !AnyCopied(ins, row, end, row - a);
    assert Registered(ins, prev, 0) == Appended(ins, prev) + [];
  }

  /** Once every column of `row` is copied, row `row` has a record exactly when it had one or some column of it was copied. */
  lemma RowAddressable(ins: Insertion, rows: map<nat, Row>, row: nat, col: nat, xs: seq<MergeRange>)
    requires row <= ins.before.lastRow && col == ins.before.lastCol + 1 && ins.amount >= 1
    requires Below(xs, row)
    requires HeightsAt(ins, rows, row, col, xs)
    ensures row in rows <==> row in ins.before.rows || HasCopy(ins, row)
  {
    var k := ins.before.lastCol;
    assert RowHeightAt(rows, row) == RowAfter(ins, row, col, xs, row);
    BelowUntouched(xs, row);
    if HasCopy(ins, row) {
      var c :| c <= k && !IsSkipCell(ins.before.merges, row, c);
      assert Copied(ins, row, col, row, c);
    }
    if AnyCopied(ins, row, col, row) {
      var c :| Copied(ins, row, col, row, c);
    }
    assert row >= ins.amount ==> !AnyCopied(ins, row, col, row - ins.amount);
  }

  /** Every range registered for source row s has its top row `amount` rows below s. */
  lemma {:induction false} RowAppendsTop(ins: Insertion, s: nat, upto: nat)
    ensures forall x :: x in RowAppends(ins, s, upto) ==> x.r1 == s + ins.amount
  {
    if upto > 0 {
      var c := upto - 1;
      RowAppendsTop(ins, s, c);
      if !IsSkipCell(ins.before.merges, s, c) && FindMerge(ins.before.merges, s, c).Some? {
        NotSkippedIsAnchor(ins.before.merges, s, c);
      }
    }
  }

  /** Every range registered while copying the rows below `row` starts more than `amount` rows below it. */
  lemma {:induction false} AppendedTop(ins: Insertion, row: int)
    requires row >= -1
    ensures forall x :: x in Appended(ins, row) ==> row + ins.amount < x.r1
    decreases ins.before.lastRow - row
  {
    if row < ins.before.lastRow {
      AppendedTop(ins, row + 1);
      RowAppendsTop(ins, row + 1, ins.before.lastCol + 1);
    }
  }

  /** Every range registered before the walk reaches (row, col) starts below row. */
  lemma RegisteredBelow(ins: Insertion, row: nat, col: nat)
    requires ins.amount >= 1
    ensures Below(Registered(ins, row, col), row)
  {
    var xs := Appended(ins, row);
    var ys := RowAppends(ins, row, col);
    AppendedTop(ins, row);
    RowAppendsTop(ins, row, col);
  }

  // ---------------------------------------------------------------------------
  // The reconciliation: `merge` of each straddling range, grown, once the
  // walk is done (cursor (at - 1, 0)).
  // ---------------------------------------------------------------------------

  /** The blanks of a grown straddling range keep the cells of the finished walk in step. */
  lemma CellsGrownStep(ins: Insertion, rows: map<nat, Row>, rows': map<nat, Row>, xs: seq<MergeRange>, m: MergeRange)
    requires DisjointRanges(ins)
    requires m in ins.before.merges && m.r1 < ins.at <= m.r2
    requires CellsAt(ins, rows, ins.at - 1, 0, xs)
    requires forall r: nat, c: nat :: GetCell(rows', r, c) ==
               (if FillBlanks(Some(m.Grown(ins.amount)), r, c) then Some(Cell(Blank, ins.defaults.xf)) else GetCell(rows, r, c))
    ensures CellsAt(ins, rows', ins.at - 1, 0, xs + [m.Grown(ins.amount)])
  {
    var fill := Some(m.Grown(ins.amount));
    assert Listed(fill) == [m.Grown(ins.amount)];
    forall r: nat, c: nat ensures GetCell(rows', r, c) == CellAfter(ins, ins.at - 1, 0, xs + Listed(fill), r, c) {
      assert GetCell(rows, r, c) == CellAfter(ins, ins.at - 1, 0, xs, r, c);
      MergeBlankSnoc(xs, fill, r, c);
      if FillBlanks(fill, r, c) {
        GrownMissesCopies(ins, m, r, c);
      }
    }
  }

  /** The row records a grown straddling range's `merge` creates keep the row records of the finished walk in step. */
  lemma HeightsGrownStep(ins: Insertion, rows: map<nat, Row>, rows': map<nat, Row>, xs: seq<MergeRange>, x: MergeRange)
    requires HeightsAt(ins, rows, ins.at - 1, 0, xs)
    requires forall r: nat :: RowHeightAt(rows', r) ==
               (if x.BlankedRow(r) then Some(HeightOf(rows, r, ins.defaults)) else RowHeightAt(rows, r))
    ensures HeightsAt(ins, rows', ins.at - 1, 0, xs + [x])
  {
    assert Listed(Some(x)) == [x];
    forall r: nat ensures RowHeightAt(rows', r) == RowAfter(ins, ins.at - 1, 0, xs + Listed(Some(x)), r) {
      assert RowHeightAt(rows, r) == RowAfter(ins, ins.at - 1, 0, xs, r);
      MergeRowSnoc(xs, Some(x), r);
      if x.BlankedRow(r) {
        FillHeight(ins, rows, ins.at - 1, 0, xs, r);
      }
    }
  }

  /** Kept holds exactly the ranges of the list that lie wholly above the insertion row. */
  lemma {:induction false} KeptMembers(ms: seq<MergeRange>, at: nat)
    ensures forall x :: x in Kept(ms, at) <==> x in ms && x.r1 < at && x.r2 < at
  {
    if |ms| > 0 {
      KeptMembers(ms[..|ms| - 1], at);
      assert ms == ms[..|ms| - 1] + [ms[|ms| - 1]];
    }
  }

  /** Grown holds exactly the straddling ranges of the list, each grown by `amount`. */
  lemma {:induction false} GrownMembers(ms: seq<MergeRange>, at: nat, amount: nat)
    ensures forall x :: x in Grown(ms, at, amount) <==> exists m :: m in ms && m.r1 < at <= m.r2 && x == m.Grown(amount)
  {
    if |ms| > 0 {
      var init := ms[..|ms| - 1];
      var last := ms[|ms| - 1];
      GrownMembers(init, at, amount);
      assert ms == init + [last];
      forall x | exists m :: m in ms && m.r1 < at <= m.r2 && x == m.Grown(amount)
        ensures x in Grown(ms, at, amount)
      {
        var m :| m in ms && m.r1 < at <= m.r2 && x == m.Grown(amount);
        if m != last {
          assert m in init;
        }
      }
    }
  }
}
