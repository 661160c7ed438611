/**
  Merged ranges of a worksheet: the first-match lookup `_get_marged_cell`, the
  skip predicate `_is_skip_cells`, and removal of the first equal entry
  (Python's `list.remove`, used by `_delete_marge_cell`).
 */
module Merges {
  import opened Cells

  /** A merged range (r1, r2, c1, c2); both bounds inclusive, anchor at (r1, c1). */
  datatype MergeRange = MergeRange(r1: nat, r2: nat, c1: nat, c2: nat) {

    predicate Contains(row: nat, col: nat)
    {
      r1 <= row <= r2 && c1 <= col <= c2
    }

    predicate IsAnchor(row: nat, col: nat)
    {
      row == r1 && col == c1
    }

    /**
      A row `sheet.merge` writes blanks in: every row below the anchor row, and
      the anchor row itself when the range is wider than one column.
     */
    predicate BlankedRow(row: nat)
    {
      r1 < row <= r2 || (row == r1 && c1 < c2)
    }

    /** What the library asserts of every range it registers. */
    predicate WellFormed()
    {
      r1 <= r2 && c1 <= c2
    }

    /** The same range moved down by `amount` rows. */
    function Shifted(amount: nat): MergeRange
    {
      MergeRange(r1 + amount, r2 + amount, c1, c2)
    }

    /** The same range with its bottom row moved down by `amount` rows. */
    function Grown(amount: nat): MergeRange
    {
      MergeRange(r1, r2 + amount, c1, c2)
    }
  }

  /** Every range of the list is well formed. */
  predicate AllWellFormed(ms: seq<MergeRange>)
  {
    forall i :: 0 <= i < |ms| ==> ms[i].WellFormed()
  }

  predicate Overlap(m: MergeRange, n: MergeRange)
  {
    m.r1 <= n.r2 && n.r1 <= m.r2 && m.c1 <= n.c2 && n.c1 <= m.c2
  }

  /** No two entries of the list share a cell (and no entry occurs twice). */
  predicate NonOverlapping(ms: seq<MergeRange>)
  {
    forall i, j :: 0 <= i < j < |ms| ==> !Overlap(ms[i], ms[j])
  }

  /** `_get_marged_cell`: the first range in list order that contains (row, col). */
  function FindMerge(ms: seq<MergeRange>, row: nat, col: nat): Option<MergeRange>
  {
    FindMergeFrom(ms, 0, row, col)
  }

  /** The scan of `_get_marged_cell` from index i on: the first range at i or later that contains (row, col). */
  function FindMergeFrom(ms: seq<MergeRange>, i: nat, row: nat, col: nat): Option<MergeRange>
    decreases |ms| - i
  {
    if i >= |ms| then None
    else if ms[i].Contains(row, col) then Some(ms[i])
    else FindMergeFrom(ms, i + 1, row, col)
  }

  /**
    The scan from index i finds nothing exactly when no range from i on
    contains (row, col), and otherwise the range at the first such index.
   */
  lemma {:induction false} FindMergeFromFirst(ms: seq<MergeRange>, i: nat, row: nat, col: nat)
    ensures FindMergeFrom(ms, i, row, col).None? <==> forall j :: i <= j < |ms| ==> !ms[j].Contains(row, col)
    ensures FindMergeFrom(ms, i, row, col).Some? ==>
      exists j :: i <= j < |ms| && ms[j] == FindMergeFrom(ms, i, row, col).value && ms[j].Contains(row, col) &&
        forall k :: i <= k < j ==> !ms[k].Contains(row, col)
    decreases |ms| - i
  {
    if i < |ms| && !ms[i].Contains(row, col) {
      FindMergeFromFirst(ms, i + 1, row, col);
    }
  }

  /**
    FindMerge finds nothing exactly when no range contains (row, col), and
    otherwise the range at the first index that does.
   */
  lemma FindMergeFirst(ms: seq<MergeRange>, row: nat, col: nat)
    ensures FindMerge(ms, row, col).None? <==> forall i :: 0 <= i < |ms| ==> !ms[i].Contains(row, col)
    ensures FindMerge(ms, row, col).Some? ==>
      exists i :: 0 <= i < |ms| && ms[i] == FindMerge(ms, row, col).value && ms[i].Contains(row, col) &&
        forall j :: 0 <= j < i ==> !ms[j].Contains(row, col)
  {
    FindMergeFromFirst(ms, 0, row, col);
  }

  /** A range FindMerge returns is one of the list's. */
  lemma FindMergeIn(ms: seq<MergeRange>, row: nat, col: nat)
    requires FindMerge(ms, row, col).Some?
    ensures FindMerge(ms, row, col).value in ms
  {
    FindMergeFirst(ms, row, col);
  }

  /** `_is_skip_cells`: (row, col) lies in the range FindMerge finds and is not its anchor. */
  function IsSkipCell(ms: seq<MergeRange>, row: nat, col: nat): bool
  {
    var m := FindMerge(ms, row, col);
    m.Some? && ((row == m.value.r1 && col != m.value.c1) || row != m.value.r1)
  }

  /**
    A cell is skipped exactly when the first range containing it holds it as a
    non-anchor cell; a cell outside every range is never skipped.
   */
  lemma SkipByFirstRange(ms: seq<MergeRange>, row: nat, col: nat)
    ensures IsSkipCell(ms, row, col) <==>
      exists i :: 0 <= i < |ms| && ms[i].Contains(row, col) && !ms[i].IsAnchor(row, col) &&
        forall j :: 0 <= j < i ==> !ms[j].Contains(row, col)
    ensures (forall i :: 0 <= i < |ms| ==> !ms[i].Contains(row, col)) ==> !IsSkipCell(ms, row, col)
  {
    FindMergeFirst(ms, row, col);
    var f := FindMerge(ms, row, col);
    if i :| 0 <= i < |ms| && ms[i].Contains(row, col) && !ms[i].IsAnchor(row, col) &&
             (forall j :: 0 <= j < i ==> !ms[j].Contains(row, col)) {
      var k :| 0 <= k < |ms| && ms[k] == f.value && ms[k].Contains(row, col) &&
        forall j :: 0 <= j < k ==> !ms[j].Contains(row, col);
      assert k == i;
    }
  }

  /** Python's `list.remove`: drop the first entry equal to `m`; a list without `m` is returned as is. */
  function RemoveFirst(ms: seq<MergeRange>, m: MergeRange): seq<MergeRange>
  {
    if |ms| == 0 then []
    else if ms[0] == m then ms[1..]
    else [ms[0]] + RemoveFirst(ms[1..], m)
  }

  /** RemoveFirst takes exactly one occurrence of `m` out of the list, if there is one. */
  lemma {:induction false} RemoveFirstCount(ms: seq<MergeRange>, m: MergeRange)
    ensures multiset(RemoveFirst(ms, m)) == multiset(ms) - multiset{m}
  {
    if |ms| > 0 {
      assert ms == [ms[0]] + ms[1..];
      if ms[0] != m {
        RemoveFirstCount(ms[1..], m);
      }
    }
  }

  /** A list without `m` is returned unchanged; a list with it loses exactly one entry. */
  lemma {:induction false} RemoveFirstEffect(ms: seq<MergeRange>, m: MergeRange)
    ensures m !in ms ==> RemoveFirst(ms, m) == ms
    ensures m in ms ==> |RemoveFirst(ms, m)| == |ms| - 1
  {
    if |ms| > 0 {
      assert ms == [ms[0]] + ms[1..];
      if ms[0] != m {
        RemoveFirstEffect(ms[1..], m);
      }
    }
  }

  /** Removing an entry that does not occur before `x` removes exactly that occurrence. */
  lemma {:induction false} RemoveFirstAt(pre: seq<MergeRange>, x: MergeRange, post: seq<MergeRange>)
    requires x !in pre
    ensures RemoveFirst(pre + [x] + post, x) == pre + post
  {
    var s := pre + [x] + post;
    if |pre| == 0 {
      assert s == [x] + post;
    } else {
      assert s[0] == pre[0] && pre[0] != x;
      assert s[1..] == pre[1..] + [x] + post;
      RemoveFirstAt(pre[1..], x, post);
      assert RemoveFirst(s, x) == [s[0]] + RemoveFirst(s[1..], x);
      assert pre == [pre[0]] + pre[1..];
    }
  }

  /**
    Ranges appended after `ms` whose top row lies below `row` are invisible to a
    lookup at `row`: the first match is the one `ms` alone gives.
   */
  lemma FindMergeIgnoresLowerRanges(ms: seq<MergeRange>, extra: seq<MergeRange>, row: nat, col: nat)
    requires forall i :: 0 <= i < |extra| ==> extra[i].r1 > row
    ensures FindMerge(ms + extra, row, col) == FindMerge(ms, row, col)
    ensures IsSkipCell(ms + extra, row, col) == IsSkipCell(ms, row, col)
  {
    FindMergeFromIgnores(ms, extra, 0, row, col);
  }

  /** The scan of FindMergeIgnoresLowerRanges, from index i on. */
  lemma {:induction false} FindMergeFromIgnores(ms: seq<MergeRange>, extra: seq<MergeRange>, i: nat, row: nat, col: nat)
    requires i <= |ms|
    requires forall j :: 0 <= j < |extra| ==> extra[j].r1 > row
    ensures FindMergeFrom(ms + extra, i, row, col) == FindMergeFrom(ms, i, row, col)
    decreases |ms| - i
  {
    if i == |ms| {
      FindMergeFromFirst(ms + extra, i, row, col);
      forall j | i <= j < |ms + extra| ensures !(ms + extra)[j].Contains(row, col) {
        assert (ms + extra)[j] == extra[j - |ms|];
      }
    } else {
      assert (ms + extra)[i] == ms[i];
      FindMergeFromIgnores(ms, extra, i + 1, row, col);
    }
  }

  /** In a list of non-overlapping ranges, the lookup at a range's anchor finds that range. */
  lemma FindMergeAtAnchor(ms: seq<MergeRange>, k: nat)
    requires NonOverlapping(ms)
    requires k < |ms| && ms[k].WellFormed()
    ensures FindMerge(ms, ms[k].r1, ms[k].c1) == Some(ms[k])
  {
    FindMergeFromAnchor(ms, 0, k);
  }

  /** The scan of FindMergeAtAnchor, from any index i up to k on. */
  lemma {:induction false} FindMergeFromAnchor(ms: seq<MergeRange>, i: nat, k: nat)
    requires NonOverlapping(ms)
    requires i <= k < |ms| && ms[k].WellFormed()
    ensures FindMergeFrom(ms, i, ms[k].r1, ms[k].c1) == Some(ms[k])
    decreases k - i
  {
    if i < k {
      assert !Overlap(ms[i], ms[k]);
      FindMergeFromAnchor(ms, i + 1, k);
    }
  }

  /** With non-overlapping ranges, a cell is skipped exactly when some range holds it as a non-anchor. */
  lemma SkipIffNonAnchor(ms: seq<MergeRange>, row: nat, col: nat)
    requires NonOverlapping(ms)
    ensures IsSkipCell(ms, row, col) <==>
      exists i :: 0 <= i < |ms| && ms[i].Contains(row, col) && !ms[i].IsAnchor(row, col)
  {
    FindMergeFirst(ms, row, col);
    if i :| 0 <= i < |ms| && ms[i].Contains(row, col) && !ms[i].IsAnchor(row, col) {
      var f := FindMerge(ms, row, col);
      var k :| 0 <= k < |ms| && ms[k] == f.value && f.value.Contains(row, col) &&
        forall j :: 0 <= j < k ==> !ms[j].Contains(row, col);
      assert k == i;
    }
  }

  /** A cell that is not skipped and lies in a range is that range's anchor. */
  lemma NotSkippedIsAnchor(ms: seq<MergeRange>, row: nat, col: nat)
    requires !IsSkipCell(ms, row, col) && FindMerge(ms, row, col).Some?
    ensures FindMerge(ms, row, col).value.IsAnchor(row, col)
  {
  }

  /** With non-overlapping, well-formed ranges, no anchor is ever skipped. */
  lemma AnchorNeverSkipped(ms: seq<MergeRange>, k: nat)
    requires NonOverlapping(ms)
    requires k < |ms| && ms[k].WellFormed()
    ensures !IsSkipCell(ms, ms[k].r1, ms[k].c1)
  {
    FindMergeAtAnchor(ms, k);
  }
}
