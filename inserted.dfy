/**
  What a sheet that `insert_rows` leaves behind looks like, read off the
  closed forms ShiftSpec.InsertedLayout and ShiftSpec.InsertedAs
  (ShiftProof.InsertRowsMeaning shows that every completed call ends in such
  a sheet): cells and rows above the insertion row are untouched but for the
  re-merged straddling ranges, the copied cells of the rows at and below it
  sit `amount` rows lower with their values and styles, the rows the shift
  opens are blank, and the merged ranges are kept, grown or moved with them,
  every cell of them but the anchor blank.
 */
module Inserted {
  import opened Cells
  import opened Merges
  import opened Worksheet
  import opened ShiftSpec

  /**
    A cell of a source row at or below the insertion row that is not hidden by
    a merge is found `amount` rows lower, holding the value the sheet had on
    entry and the style the source cell had on entry.
   */
  lemma ShiftedCell(ins: Insertion, after: SheetData, s: nat, c: nat)
    requires InsertedAs(ins, after)
    requires ins.at <= s <= ins.before.lastRow && c <= ins.before.lastCol
    requires !IsSkipCell(ins.before.merges, s, c)
    ensures GetCell(after.rows, s + ins.amount, c) ==
      Some(Cell(SnapshotValue(ins.before.rows, s, c), StyleAt(ins.before.rows, s, c, ins.defaults)))
  {
    assert GetCell(after.rows, s + ins.amount, c) == CellAfter(ins, ins.at - 1, 0, FinalFills(ins), s + ins.amount, c);
    assert Copied(ins, ins.at - 1, 0, s, c);
  }

  /** Every range the walk registers starts at or below the first row after the opened ones. */
  lemma AppendedLow(ins: Insertion, x: MergeRange)
    requires x in Appended(ins, ins.at - 1)
    ensures ins.at + ins.amount <= x.r1
  {
    AppendedTop(ins, ins.at - 1);
  }

  /**
    Above the first row after the opened ones, the cells blanked by merges
    are those of the straddling ranges, grown, but their anchors; and so are
    the rows.
   */
  lemma FillsNearInsertion(ins: Insertion, r: nat, c: nat)
    requires r < ins.at + ins.amount
    ensures var g := ins.before;
      MergeBlank(FinalFills(ins), r, c) <==>
        exists m :: m in g.merges && m.r1 < ins.at <= m.r2 && m.Grown(ins.amount).Contains(r, c) && !m.IsAnchor(r, c)
    ensures var g := ins.before;
      MergeRow(FinalFills(ins), r) <==>
        exists m :: m in g.merges && m.r1 < ins.at <= m.r2 && m.Grown(ins.amount).BlankedRow(r)
  {
    var g := ins.before;
    var fills := FinalFills(ins);
    var grown := Grown(g.merges, ins.at, ins.amount);
    GrownMembers(g.merges, ins.at, ins.amount);
    MergeBlankMembers(fills, r, c);
    MergeRowMembers(fills, r);
    if MergeBlank(fills, r, c) {
      var x :| x in fills && x.Contains(r, c) && !x.IsAnchor(r, c);
      if x in Appended(ins, ins.at - 1) {
        AppendedLow(ins, x);
      }
    }
    if exists m :: m in g.merges && m.r1 < ins.at <= m.r2 && m.Grown(ins.amount).Contains(r, c) && !m.IsAnchor(r, c) {
      var m :| m in g.merges && m.r1 < ins.at <= m.r2 && m.Grown(ins.amount).Contains(r, c) && !m.IsAnchor(r, c);
      assert m.Grown(ins.amount) in fills;
    }
    if MergeRow(fills, r) {
      var x :| x in fills && x.BlankedRow(r);
      if x in Appended(ins, ins.at - 1) {
        AppendedLow(ins, x);
      }
    }
    if exists m :: m in g.merges && m.r1 < ins.at <= m.r2 && m.Grown(ins.amount).BlankedRow(r) {
      var m :| m in g.merges && m.r1 < ins.at <= m.r2 && m.Grown(ins.amount).BlankedRow(r);
      assert m.Grown(ins.amount) in fills;
    }
  }

  /**
    Above the insertion row every cell is as it was, except the cells of a
    range straddling the insertion row other than its anchor, which the
    re-merge blanks in the default style; every row record is as it was,
    except that a row of such a range that had none is created with the
    default height.
   */
  lemma RowsAboveKept(ins: Insertion, after: SheetData, r: nat, c: nat)
    requires InsertedAs(ins, after)
    requires r < ins.at
    ensures var g := ins.before;
      GetCell(after.rows, r, c) ==
        if exists m :: m in g.merges && m.r1 < ins.at <= m.r2 && m.Contains(r, c) && !m.IsAnchor(r, c)
        then Some(Cell(Blank, ins.defaults.xf))
        else GetCell(g.rows, r, c)
    ensures var g := ins.before;
      RowHeightAt(after.rows, r) ==
        if r !in g.rows && exists m :: m in g.merges && m.r1 < ins.at <= m.r2 && m.BlankedRow(r)
        then Some(ins.defaults.height)
        else RowHeightAt(g.rows, r)
  {
    FillsNearInsertion(ins, r, c);
    KeptAbove(ins, after.rows, FinalFills(ins), r, c);
  }

  /** RowsAboveKept for any list of ranges `xs` that blanks what the final one does above the first shifted row. */
  lemma KeptAbove(ins: Insertion, rows: map<nat, Row>, xs: seq<MergeRange>, r: nat, c: nat)
    requires CellsAt(ins, rows, ins.at - 1, 0, xs) && HeightsAt(ins, rows, ins.at - 1, 0, xs)
    requires r < ins.at
    requires MergeBlank(xs, r, c) <==>
      exists m :: m in ins.before.merges && m.r1 < ins.at <= m.r2 && m.Grown(ins.amount).Contains(r, c) && !m.IsAnchor(r, c)
    requires MergeRow(xs, r) <==>
      exists m :: m in ins.before.merges && m.r1 < ins.at <= m.r2 && m.Grown(ins.amount).BlankedRow(r)
    ensures var g := ins.before;
      GetCell(rows, r, c) ==
        if exists m :: m in g.merges && m.r1 < ins.at <= m.r2 && m.Contains(r, c) && !m.IsAnchor(r, c)
        then Some(Cell(Blank, ins.defaults.xf))
        else GetCell(g.rows, r, c)
    ensures var g := ins.before;
      RowHeightAt(rows, r) ==
        if r !in g.rows && exists m :: m in g.merges && m.r1 < ins.at <= m.r2 && m.BlankedRow(r)
        then Some(ins.defaults.height)
        else RowHeightAt(g.rows, r)
  {
    assert GetCell(rows, r, c) == CellAfter(ins, ins.at - 1, 0, xs, r, c);
    assert RowHeightAt(rows, r) == RowAfter(ins, ins.at - 1, 0, xs, r);
    assert forall m: MergeRange :: m.r1 < ins.at <= m.r2 ==>
      (m.Grown(ins.amount).Contains(r, c) <==> m.Contains(r, c)) && (m.Grown(ins.amount).BlankedRow(r) <==> m.BlankedRow(r));
  }

  /**
    The cells of the rows the shift opens, from the insertion row on: within
    the used area they hold blanks of the default style; so do the cells of a
    straddling range, grown; the others are as they were.
   */
  lemma OpenedRows(ins: Insertion, after: SheetData, r: nat, c: nat)
    requires InsertedAs(ins, after)
    requires ins.at <= r < ins.at + ins.amount
    ensures var g := ins.before;
      GetCell(after.rows, r, c) ==
        if (r <= g.lastRow && c <= g.lastCol) ||
           exists m :: m in g.merges && m.r1 < ins.at <= m.r2 && m.Grown(ins.amount).Contains(r, c)
        then Some(Cell(Blank, ins.defaults.xf))
        else GetCell(g.rows, r, c)
  {
    var cursor := ins.at - 1;
    FillsNearInsertion(ins, r, c);
    assert GetCell(after.rows, r, c) == CellAfter(ins, cursor, 0, FinalFills(ins), r, c);
    assert !(r >= ins.amount && Copied(ins, cursor, 0, r - ins.amount, c));
  }

  /**
    The row records of the rows the shift opens: within the used area they
    have the standard height; beyond it they are as they were, but a row a
    grown straddling range covers and that had no record is created with the
    default height.
   */
  lemma OpenedRowHeights(ins: Insertion, after: SheetData, r: nat)
    requires InsertedLayout(ins, after)
    requires ins.at <= r < ins.at + ins.amount
    ensures r <= ins.before.lastRow ==> RowHeightAt(after.rows, r) == Some(ClearedRowHeight)
    ensures var g := ins.before;
      r > g.lastRow ==>
        RowHeightAt(after.rows, r) ==
          if r !in g.rows && exists m :: m in g.merges && m.r1 < ins.at <= m.r2 && r <= m.r2 + ins.amount
          then Some(ins.defaults.height)
          else RowHeightAt(g.rows, r)
  {
    FillsNearInsertion(ins, r, 0);
    OpenedHeight(ins, after.rows, FinalFills(ins), r);
  }

  /** OpenedRowHeights for any list of ranges `xs` that blanks the rows the final one does above the first shifted row. */
  lemma OpenedHeight(ins: Insertion, rows: map<nat, Row>, xs: seq<MergeRange>, r: nat)
    requires HeightsAt(ins, rows, ins.at - 1, 0, xs)
    requires ins.at <= r < ins.at + ins.amount
    requires MergeRow(xs, r) <==>
      exists m :: m in ins.before.merges && m.r1 < ins.at <= m.r2 && m.Grown(ins.amount).BlankedRow(r)
    ensures r <= ins.before.lastRow ==> RowHeightAt(rows, r) == Some(ClearedRowHeight)
    ensures var g := ins.before;
      r > g.lastRow ==>
        RowHeightAt(rows, r) ==
          if r !in g.rows && exists m :: m in g.merges && m.r1 < ins.at <= m.r2 && r <= m.r2 + ins.amount
          then Some(ins.defaults.height)
          else RowHeightAt(g.rows, r)
  {
    var cursor := ins.at - 1;
    assert RowHeightAt(rows, r) == RowAfter(ins, cursor, 0, xs, r);
    assert forall m: MergeRange :: m.r1 < ins.at <= m.r2 ==> (m.Grown(ins.amount).BlankedRow(r) <==> r <= m.r2 + ins.amount);
    assert !(r >= ins.amount && AnyCopied(ins, cursor, 0, r - ins.amount));
    if AnyCopied(ins, cursor, 0, r) {
      var c :| Copied(ins, cursor, 0, r, c);
    }
  }

  /** A cell of a range the call merges, other than its anchor and not a copy destination, is blank and its row has a record. */
  lemma FillBlankAt(ins: Insertion, after: SheetData, x: MergeRange, r: nat, c: nat)
    requires InsertedAs(ins, after)
    requires x in FinalFills(ins) && x.Contains(r, c) && !x.IsAnchor(r, c)
    requires !(r >= ins.amount && Copied(ins, ins.at - 1, 0, r - ins.amount, c))
    ensures GetCell(after.rows, r, c) == Some(Cell(Blank, ins.defaults.xf))
    ensures r in after.rows
  {
    var fills := FinalFills(ins);
    MergeBlankMembers(fills, r, c);
    MergeRowMembers(fills, r);
    assert MergeBlank(fills, r, c) && MergeRow(fills, r);
    assert GetCell(after.rows, r, c) == CellAfter(ins, ins.at - 1, 0, fills, r, c);
    assert RowHeightAt(after.rows, r) == RowAfter(ins, ins.at - 1, 0, fills, r);
  }

  /**
    With disjoint ranges on entry, every cell of a range the call merges (an
    original range moved with its anchor, or a straddling one grown) other
    than the anchor holds a blank of the default style, and its row has a
    record.
   */
  lemma MergedCellsBlank(ins: Insertion, after: SheetData, m: MergeRange, r: nat, c: nat)
    requires InsertedAs(ins, after) && DisjointRanges(ins)
    requires m in ins.before.merges
    requires (ins.at <= m.r1 <= ins.before.lastRow && m.c1 <= ins.before.lastCol) || m.r1 < ins.at <= m.r2
    requires var x := if m.r1 < ins.at then m.Grown(ins.amount) else m.Shifted(ins.amount);
      x.Contains(r, c) && !x.IsAnchor(r, c)
    ensures GetCell(after.rows, r, c) == Some(Cell(Blank, ins.defaults.xf))
    ensures r in after.rows
  {
    var g := ins.before;
    var a := ins.amount;
    if m.r1 < ins.at {
      GrownMembers(g.merges, ins.at, a);
      assert m.Grown(a) in Grown(g.merges, ins.at, a);
      GrownMissesCopies(ins, m, r, c);
      FillBlankAt(ins, after, m.Grown(a), r, c);
    } else {
      MovedInFills(ins, m);
      var k :| 0 <= k < |g.merges| && g.merges[k] == m;
      SkipIffNonAnchor(g.merges, r - a, c);
      FillBlankAt(ins, after, m.Shifted(a), r, c);
    }
  }

  /** With disjoint ranges on entry, an original range anchored in a shifted row and column is among those the call merges, moved down. */
  lemma MovedInFills(ins: Insertion, m: MergeRange)
    requires DisjointRanges(ins)
    requires m in ins.before.merges && ins.at <= m.r1 <= ins.before.lastRow && m.c1 <= ins.before.lastCol
    ensures m.Shifted(ins.amount) in Appended(ins, ins.at - 1)
  {
    var g := ins.before;
    var k :| 0 <= k < |g.merges| && g.merges[k] == m;
    AnchorNeverSkipped(g.merges, k);
    FindMergeAtAnchor(g.merges, k);
    RowAppendsHas(ins, m.r1, g.lastCol + 1, m.c1);
    AppendedHas(ins, ins.at - 1, m.r1, m.Shifted(ins.amount));
  }

  /**
    A shifted row with a copied column has a record `amount` rows lower. It
    takes the source row's height when that is non-zero; otherwise it keeps
    the height the destination had by then: the standard one when the
    destination was itself a source row, its own otherwise.
   */
  lemma ShiftedRowHeight(ins: Insertion, after: SheetData, s: nat)
    requires InsertedLayout(ins, after)
    requires ins.at <= s <= ins.before.lastRow && HasCopy(ins, s)
    ensures var g := ins.before;
      var h := HeightOf(g.rows, s, ins.defaults);
      RowHeightAt(after.rows, s + ins.amount) ==
        Some(if h != 0 then h
             else if s + ins.amount <= g.lastRow then ClearedRowHeight
             else HeightOf(g.rows, s + ins.amount, ins.defaults))
  {
    var c: nat :| c <= ins.before.lastCol && !IsSkipCell(ins.before.merges, s, c);
    assert Copied(ins, ins.at - 1, 0, s, c);
    assert RowHeightAt(after.rows, s + ins.amount) == RowAfter(ins, ins.at - 1, 0, FinalFills(ins), s + ins.amount);
  }

  /**
    Column records: an existing one keeps its width; a missing one is created,
    with the default width, exactly when a cell of that column is copied.
   */
  lemma ColumnWidths(ins: Insertion, after: SheetData, c: nat)
    requires InsertedLayout(ins, after)
    ensures c in ins.before.cols ==> ColWidthAt(after.cols, c) == Some(ins.before.cols[c])
    ensures c !in ins.before.cols ==>
      (ColWidthAt(after.cols, c).Some? <==>
        exists s: nat :: ins.at <= s <= ins.before.lastRow && c <= ins.before.lastCol && !IsSkipCell(ins.before.merges, s, c))
    ensures c !in ins.before.cols && ColWidthAt(after.cols, c).Some? ==> ColWidthAt(after.cols, c) == Some(ins.defaults.width)
  {
    assert ColWidthAt(after.cols, c) == ColAfter(ins, ins.at - 1, 0, c);
    if exists s: nat :: ins.at <= s <= ins.before.lastRow && c <= ins.before.lastCol && !IsSkipCell(ins.before.merges, s, c) {
      var s: nat :| ins.at <= s <= ins.before.lastRow && c <= ins.before.lastCol && !IsSkipCell(ins.before.merges, s, c);
      assert Copied(ins, ins.at - 1, 0, s, c);
    }
  }

  /**
    The used bounds: they never shrink and they cover every range the call
    merges. The last column is the old one or the right column of such a
    range; the last row grows by at most `amount` unless it is the bottom row
    of such a range, and by at least `amount` when the old last row is at or
    below the insertion row and has a copied column.
   */
  lemma UsedBounds(ins: Insertion, after: SheetData)
    requires InsertedLayout(ins, after)
    ensures var g := ins.before;
      g.lastRow <= after.lastRow && g.lastCol <= after.lastCol
    ensures forall x :: x in FinalFills(ins) ==> x.r2 <= after.lastRow && x.c2 <= after.lastCol
    ensures after.lastCol == ins.before.lastCol || exists x :: x in FinalFills(ins) && after.lastCol == x.c2
    ensures after.lastRow <= ins.before.lastRow + ins.amount || exists x :: x in FinalFills(ins) && after.lastRow == x.r2
    ensures ins.at <= ins.before.lastRow && HasCopy(ins, ins.before.lastRow) ==>
      ins.before.lastRow + ins.amount <= after.lastRow
  {
    var g := ins.before;
    var fills := FinalFills(ins);
    var v := after.lastRow;
    var cursor := ins.at - 1;
    DeepestRowMembers(fills);
    RightmostColMembers(fills);
    if v != g.lastRow {
      if exists s: nat :: AnyCopied(ins, cursor, 0, s) && v == s + ins.amount {
        var s: nat :| AnyCopied(ins, cursor, 0, s) && v == s + ins.amount;
        var c: nat :| Copied(ins, cursor, 0, s, c);
      }
    }
    if ins.at <= g.lastRow && HasCopy(ins, g.lastRow) {
      var c: nat :| c <= g.lastCol && !IsSkipCell(g.merges, g.lastRow, c);
      assert Copied(ins, ins.at - 1, 0, g.lastRow, c);
      assert AnyCopied(ins, ins.at - 1, 0, g.lastRow);
    }
  }

  /** Every range the call merges is an original range, moved down or grown by `amount`. */
  lemma FinalFillsFrom(ins: Insertion, x: MergeRange)
    requires x in FinalFills(ins)
    ensures exists m :: m in ins.before.merges && m.r2 + ins.amount == x.r2 && m.c2 == x.c2
  {
    var g := ins.before;
    if x in Grown(g.merges, ins.at, ins.amount) {
      GrownMembers(g.merges, ins.at, ins.amount);
    } else {
      AppendedFrom(ins, ins.at - 1, x);
      var s: nat, c: nat :| ins.at - 1 < s <= g.lastRow && c <= g.lastCol &&
        !IsSkipCell(g.merges, s, c) && FindMerge(g.merges, s, c).Some? &&
        x == FindMerge(g.merges, s, c).value.Shifted(ins.amount);
      FindMergeIn(g.merges, s, c);
    }
  }

  /**
    When every original range lies within the used area, the last column
    stays and the last row grows by at most `amount`, and by exactly `amount`
    when the old last row is at or below the insertion row and has a copied
    column.
   */
  lemma UsedBoundsWithin(ins: Insertion, after: SheetData)
    requires InsertedLayout(ins, after)
    requires forall m :: m in ins.before.merges ==> m.r2 <= ins.before.lastRow && m.c2 <= ins.before.lastCol
    ensures after.lastCol == ins.before.lastCol
    ensures ins.before.lastRow <= after.lastRow <= ins.before.lastRow + ins.amount
    ensures ins.at <= ins.before.lastRow && HasCopy(ins, ins.before.lastRow) ==>
      after.lastRow == ins.before.lastRow + ins.amount
  {
    UsedBounds(ins, after);
    if after.lastCol != ins.before.lastCol {
      var x :| x in FinalFills(ins) && after.lastCol == x.c2;
      FinalFillsFrom(ins, x);
    }
    if after.lastRow > ins.before.lastRow + ins.amount {
      var x :| x in FinalFills(ins) && after.lastRow == x.r2;
      FinalFillsFrom(ins, x);
    }
  }

  /**
    With disjoint ranges all within the used area, the last row grows by
    exactly `amount` whenever the old last row is at or below the insertion
    row. Either that row has a copied column, or its cell in column 0 lies
    inside a range, not at its anchor, whose bottom row is the old last row;
    the call grows that range when it straddles the insertion row and moves
    it down otherwise.
   */
  lemma UsedRowsGrow(ins: Insertion, after: SheetData)
    requires InsertedLayout(ins, after) && DisjointRanges(ins)
    requires forall m :: m in ins.before.merges ==> m.r2 <= ins.before.lastRow && m.c2 <= ins.before.lastCol
    requires ins.at <= ins.before.lastRow
    ensures after.lastRow == ins.before.lastRow + ins.amount
  {
    var g := ins.before;
    UsedBoundsWithin(ins, after);
    if !HasCopy(ins, g.lastRow) {
      assert IsSkipCell(g.merges, g.lastRow, 0);
      SkipIffNonAnchor(g.merges, g.lastRow, 0);
      var i :| 0 <= i < |g.merges| && g.merges[i].Contains(g.lastRow, 0) && !g.merges[i].IsAnchor(g.lastRow, 0);
      var m := g.merges[i];
      assert m in g.merges;
      var x: MergeRange;
      if m.r1 < ins.at {
        GrownMembers(g.merges, ins.at, ins.amount);
        x := m.Grown(ins.amount);
      } else {
        MovedInFills(ins, m);
        x := m.Shifted(ins.amount);
      }
      assert x in FinalFills(ins) && x.r2 == g.lastRow + ins.amount;
      UsedBounds(ins, after);
    }
  }

  // ---------------------------------------------------------------------------
  // The merge list.
  // ---------------------------------------------------------------------------

  /** The range found at a copied cell of row s before column `upto` is among those registered for that row. */
  lemma {:induction false} RowAppendsHas(ins: Insertion, s: nat, upto: nat, c: nat)
    requires c < upto
    requires !IsSkipCell(ins.before.merges, s, c) && FindMerge(ins.before.merges, s, c).Some?
    ensures FindMerge(ins.before.merges, s, c).value.Shifted(ins.amount) in RowAppends(ins, s, upto)
  {
    if c < upto - 1 {
      RowAppendsHas(ins, s, upto - 1, c);
    }
  }

  /** Every range registered for a source row below `row` is among those registered by the walk down to `row` + 1. */
  lemma {:induction false} AppendedHas(ins: Insertion, row: int, s: nat, x: MergeRange)
    requires -1 <= row < s <= ins.before.lastRow
    requires x in RowAppends(ins, s, ins.before.lastCol + 1)
    ensures x in Appended(ins, row)
    decreases s - row
  {
    if row + 1 < s {
      AppendedHas(ins, row + 1, s, x);
    }
  }

  /** Every range registered for row s is the range found at a copied cell of that row, moved down. */
  lemma {:induction false} RowAppendsFrom(ins: Insertion, s: nat, upto: nat, x: MergeRange)
    requires x in RowAppends(ins, s, upto)
    ensures exists c: nat :: c < upto && !IsSkipCell(ins.before.merges, s, c) &&
              FindMerge(ins.before.merges, s, c).Some? && x == FindMerge(ins.before.merges, s, c).value.Shifted(ins.amount)
  {
    var c := upto - 1;
    if x in RowAppends(ins, s, c) {
      RowAppendsFrom(ins, s, c, x);
    }
  }

  /** Every range the walk registers is the range found at a copied cell of a source row below `row`, moved down. */
  lemma {:induction false} AppendedFrom(ins: Insertion, row: int, x: MergeRange)
    requires row >= -1
    requires x in Appended(ins, row)
    ensures exists s: nat, c: nat :: row < s <= ins.before.lastRow && c <= ins.before.lastCol &&
              !IsSkipCell(ins.before.merges, s, c) && FindMerge(ins.before.merges, s, c).Some? &&
              x == FindMerge(ins.before.merges, s, c).value.Shifted(ins.amount)
    decreases ins.before.lastRow - row
  {
    var s := row + 1;
    if x in Appended(ins, s) {
      AppendedFrom(ins, s, x);
    } else {
      RowAppendsFrom(ins, s, ins.before.lastCol + 1, x);
    }
  }

  /**
    Every range of the final merge list is an original range wholly above the
    insertion row, an original range straddling it grown by `amount`, or an
    original range anchored in a shifted row and column, moved down by `amount`.
   */
  lemma FinalMergesFrom(ins: Insertion, after: SheetData, x: MergeRange)
    requires InsertedLayout(ins, after)
    requires x in after.merges
    ensures var g := ins.before;
      (x in g.merges && x.r1 < ins.at && x.r2 < ins.at) ||
      (exists m :: m in g.merges && m.r1 < ins.at <= m.r2 && x == m.Grown(ins.amount)) ||
      (exists m :: m in g.merges && ins.at <= m.r1 <= g.lastRow && m.c1 <= g.lastCol && x == m.Shifted(ins.amount))
  {
    var g := ins.before;
    assert after.merges == Kept(g.merges, ins.at) + Appended(ins, ins.at - 1) + Grown(g.merges, ins.at, ins.amount);
    if x in Kept(g.merges, ins.at) {
      KeptMembers(g.merges, ins.at);
    } else if x in Grown(g.merges, ins.at, ins.amount) {
      GrownMembers(g.merges, ins.at, ins.amount);
    } else {
      AppendedFrom(ins, ins.at - 1, x);
      var s: nat, c: nat :| ins.at - 1 < s <= g.lastRow && c <= g.lastCol &&
        !IsSkipCell(g.merges, s, c) && FindMerge(g.merges, s, c).Some? &&
        x == FindMerge(g.merges, s, c).value.Shifted(ins.amount);
      FindMergeIn(g.merges, s, c);
      var m := FindMerge(g.merges, s, c).value;
      assert m in g.merges && m.r1 == s && m.c1 == c;
    }
  }

  /** Every original range wholly above the insertion row stays in the merge list. */
  lemma KeptRange(ins: Insertion, after: SheetData, m: MergeRange)
    requires InsertedLayout(ins, after)
    requires m in ins.before.merges && m.r1 < ins.at && m.r2 < ins.at
    ensures m in after.merges
  {
    KeptMembers(ins.before.merges, ins.at);
  }

  /** Every original range straddling the insertion row is replaced by the range grown by `amount`. */
  lemma GrownRange(ins: Insertion, after: SheetData, m: MergeRange)
    requires InsertedLayout(ins, after)
    requires m in ins.before.merges && m.r1 < ins.at <= m.r2
    ensures m.Grown(ins.amount) in after.merges
  {
    GrownMembers(ins.before.merges, ins.at, ins.amount);
  }

  /**
    With non-overlapping, well-formed ranges on entry, every original range
    anchored in a shifted row and column is registered again `amount` rows down.
   */
  lemma MovedRange(ins: Insertion, after: SheetData, m: MergeRange)
    requires InsertedLayout(ins, after) && DisjointRanges(ins)
    requires m in ins.before.merges && ins.at <= m.r1 <= ins.before.lastRow && m.c1 <= ins.before.lastCol
    ensures m.Shifted(ins.amount) in after.merges
  {
    var g := ins.before;
    MovedInFills(ins, m);
    assert after.merges == Kept(g.merges, ins.at) + Appended(ins, ins.at - 1) + Grown(g.merges, ins.at, ins.amount);
  }
}
