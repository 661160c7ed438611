# xl: cell, merge and row-insertion helpers for xlwt worksheets, in Dafny

`xl.py` adds helpers to an xlwt worksheet (a sparse grid of row records, each
holding its cells and height, plus column records with widths and a list of
merged ranges):

- `_get_cell` looks up a cell.
- `set_value_cell` writes a value and keeps or copies formatting: the style
  index, the column width and the row height.
- `_get_marged_cell` and `_is_skip_cells` find the merged range a cell belongs
  to and decide whether the cell is hidden by it.
- `_delete_marge_cell` removes one range.
- `insert_rows` opens `amount` empty rows at a 1-based position. It copies
  every source row from the last used row up to the insertion row `amount`
  rows down, column by column. It moves the merged ranges with their anchors,
  blanks each source row and resets its height. Finally it reconciles the
  original ranges: those at or below the insertion row are removed and those
  straddling it are grown.

The project has seven modules:

- `Cells` (cells.dfy) holds the grid as a value and `_get_cell`.
- `Merges` (merges.dfy) holds merged ranges, the range lookup, the skip test
  and Python's `list.remove`.
- `Worksheet` (worksheet.dfy) is a `Sheet` class whose fields the xlwt calls
  used by xl.py update in place. Each method is specified by a function on the
  sheet's state as a value (`SheetData`). This includes the library's
  `merge`, which writes blanks over the range but its anchor (creating the
  row records) before registering it, and `write_merge`, which first writes
  the anchor.
- `Xl` (xl.dfy) holds the helpers:
  - `set_value_cell`, `_delete_marge_cell` and `insert_rows` as methods on a
    `Sheet`;
  - the loops of `insert_rows` as methods with invariants;
  - each proved equal to a function on `SheetData` (`SetValueData`,
    `ColumnsCopied`, `Walk`, `Reconciled`, `InsertRowsResult`).
- `ShiftSpec` (shift.dfy) describes in closed form the sheet at every point of
  the walk of `insert_rows`. The point is a (row, column) cursor.
- `ShiftProof` (shift_proof.dfy) proves that the walk's functions meet that
  closed form. So `insert_rows` completes exactly when no cell it reads lies
  outside the re-read sheet and every source row can be looked up when it is
  blanked. It then leaves the sheet `ShiftSpec.InsertedAs` describes.
- `Inserted` (inserted.dfy) reads off that closed form what a user of
  `insert_rows` relies on:
  - rows above the insertion point are untouched, except the cells other
    than the anchor of a range straddling the insertion row, which the
    re-merge writes again as blanks of the default style (creating missing
    row records);
  - cells not hidden by a merge move down with their value and style; a
    hidden cell is not copied, and its place in the moved range is a blank
    of the default style;
  - the opened rows are blank;
  - ranges are kept, grown or moved.

`insert_rows` reads cell values from a saved and re-read copy of the workbook
(xlrd). The model takes the values of that copy to be the sheet's cells on
entry, an absent cell reading as blank. The copy's dimensions (xlrd's `nrows`
and `ncols`) are a parameter, `size`. `cell_value` raises `IndexError` for a
cell outside them (line 117). That error, and a `KeyError` from
`sheet_wt.rows[row]` (line 128), are the result `None` (`ok == false`). A
`ValueError` swallowed by `_delete_marge_cell` is `found == false` with the
sheet unchanged.

## Model

| member | source | states |
|---|---|---|
| Cells.GetCell | xl.py:6-18 | None when the row record is missing or holds no cell at the column; otherwise exactly the stored cell |
| Merges.FindMergeFirst | xl.py:67-74 | the lookup returns None iff no range contains (row, col) with inclusive bounds; otherwise the range at the first index that contains it |
| Merges.FindMergeIn | xl.py:72-74 | a found range is a member of the list and contains the cell |
| Merges.FindMergeAtAnchor | xl.py:72-74 | with non-overlapping ranges, the lookup at a range's anchor finds that range |
| Merges.FindMergeIgnoresLowerRanges | xl.py:114-118 | appending ranges that start below the row changes neither the lookup nor the skip test at that row |
| Merges.SkipByFirstRange | xl.py:77-86 | a cell is skipped iff the first range containing it holds it as a non-anchor cell; a cell outside every range is never skipped |
| Merges.SkipIffNonAnchor | xl.py:77-86 | with non-overlapping ranges, a cell is skipped iff some range contains it and it is not that range's top-left cell |
| Merges.AnchorNeverSkipped | xl.py:77-86 | the top-left cell of a listed range is never skipped when ranges do not overlap |
| Merges.RemoveFirstCount | xl.py:59-64 | `list.remove` takes out exactly one occurrence: the multiset loses one copy of the value |
| Merges.RemoveFirstEffect | xl.py:59-64 | an absent value leaves the list unchanged; a present one makes it one shorter |
| Merges.RemoveFirstAt | xl.py:59-64 | removing x from `pre + [x] + post`, where `pre` does not hold x, leaves exactly `pre + post` |
| Worksheet.BlankRunEffect | xl.py:128-129 | `write_blanks(c1, c2)` puts a blank of the given style in every column c1..c2 and leaves every other column as it was |
| Worksheet.RowsBlankedEffect | xl.py:142 | after blanking rows lo..hi-1 over c1..c2, exactly those cells hold blanks of the default style, exactly those rows gain a record (with the default height when new), the used bounds grow to cover them, and columns and ranges are unchanged |
| Worksheet.MergeAddedEffect | xl.py:142 | after `merge`, exactly the cells of the range but its anchor are blanks of the default style, exactly the rows holding such a cell have a record, the range is appended, and the used bounds cover the range unless it is a single cell |
| Worksheet.MergeWrittenEffect | xl.py:123 | after `write_merge`, every cell of the range (anchor included) is a blank of the default style, every row of it has a record, the range is appended, the used bounds cover it, and nothing outside it changes |
| Worksheet.RemoveFirstKeepsWellFormed | xl.py:62 | removing a range keeps every remaining range well formed |
| Worksheet.Sheet.RowHeight | xl.py:40 | returns the stored height or the default, and creates the row record if missing |
| Worksheet.Sheet.ColWidth | xl.py:39 | returns the stored width or the default, and creates the column record if missing |
| Worksheet.Sheet.SetColWidth | xl.py:52-53 | the column record holds the new width; nothing else changes |
| Worksheet.Sheet.SetRowHeight | xl.py:55-56 | the row record (created if missing) holds the new height; its cells are kept |
| Worksheet.Sheet.Write | xl.py:45 | the cell holds the value with the default style; the used bounds grow to cover it |
| Worksheet.Sheet.SetXf | xl.py:49-50 | the existing cell keeps its value and takes the new style index |
| Worksheet.Sheet.WriteBlanks | xl.py:128-129 | an existing row gets blanks over c1..c2 |
| Worksheet.Sheet.Merge | xl.py:142 | `merge` writes blanks of the default style over every cell of the range but its anchor, creating the row records, then appends the range (MergeAdded) |
| Worksheet.Sheet.WriteMerge | xl.py:121-123 | `write_merge` writes a blank anchor, then does what `merge` does (MergeWritten) |
| Worksheet.Sheet.RowsWriteBlanks | xl.py:142 | the loop of `merge` over the rows below the anchor row writes blanks over c1..c2 in each, in order (RowsBlanked) |
| Worksheet.Sheet.RemoveMerge | xl.py:62 | `found` iff the range was listed; the first occurrence is removed, else nothing changes |
| Xl.SetValueCell | xl.py:21-56 | the sheet after the call is SetValueData of the sheet before; validity is kept |
| Xl.SetValueCellAt | xl.py:37-50 | at the target the new value carries, when both pattern coordinates are given, the style of the pattern cell, or the default when that cell does not exist; without a pattern, the style of the target's own prior cell, or the default when it had none; every other cell is unchanged |
| Xl.SetValueCellEffect | xl.py:37-50 | the same, for all cells at once |
| Xl.SetValueHeightAt | xl.py:37-56 | row r's record after the call: the target row exists and takes the pattern row's height when both pattern coordinates are given and that height is non-zero, else keeps its own (the default if created); the pattern row's record exists with its height; other rows are unchanged |
| Xl.SetValueHeightsEffect | xl.py:37-56 | the same, for every row at once |
| Xl.SetValueWidthsEffect | xl.py:37-53 | column records after the call: the target column takes the pattern column's width when that is non-zero; the pattern column's record exists; the used bounds grow to the target (and the pattern row); the ranges are unchanged |
| Xl.DeleteMerge | xl.py:59-64 | removes the first occurrence of the range, or leaves the sheet unchanged when the range is not listed |
| Xl.InsertionRow | xl.py:110-112 | a 1-based position of at least 1 becomes the row before it; 1 and anything smaller become row 0 |
| Xl.CopyColumn | xl.py:116-125 | one column step: a non-skipped cell outside the re-read sheet makes `ok` false before anything is written (IndexError); otherwise a non-skipped cell opens its range `amount` rows down, then is copied there with `set_value_cell` patterned on itself; a skipped cell changes nothing |
| Xl.CopyMerge | xl.py:118-123 | the range found at the cell, if any, is written again with `write_merge` `amount` rows lower; with none found the sheet is unchanged |
| Xl.CopyColumns | xl.py:115-125 | `ok` iff every read of the column loop over 0..last used column succeeds (ColumnsRead), and then the sheet is ColumnsCopied: the column steps in order |
| Xl.ColumnsReadStays | xl.py:115-117 | once a read of the column loop has raised, the loop as a whole has |
| Xl.ShiftRow | xl.py:114-130 | one source row: `ok` is false exactly when a read raises IndexError or the row has no record (KeyError); otherwise its columns are copied, then it is blanked and its height set to 256 |
| Xl.ReconcileMerge | xl.py:133-142 | an original range starting at or below the insertion row is removed; one straddling it is removed and re-added grown by `amount`; others are untouched |
| Xl.InsertRows | xl.py:89-144 | `ok` iff InsertRowsResult is defined, and then the sheet is that result: the row walk from the last used row down to the insertion row, then the reconciliation of the ranges listed on entry |
| Xl.WalkStaysFailed | xl.py:114-130 | once a row raised, the walk never recovers |
| Xl.InsertRowsFails | xl.py:114-130 | a row of the walk that raises makes the whole call raise |
| ShiftSpec.WalkNotStarted | xl.py:114 | at or past the last used row nothing has been done yet: the sheet is the original and no range is registered |
| ShiftSpec.CopiedStep | xl.py:115-116 | a column step copies (row, col) exactly when the cell is not skipped |
| ShiftSpec.CellsCopyStep | xl.py:115-125 | copying or skipping (row, col) moves the cells of the walk one cursor forward |
| ShiftSpec.HeightsCopyStep | xl.py:115-125 | copying or skipping (row, col) moves the row records one cursor forward |
| ShiftSpec.WidthsCopyStep | xl.py:115-125 | copying or skipping (row, col) moves the column records one cursor forward |
| ShiftSpec.LastRowCopyStep | xl.py:115-125 | a copied cell makes its destination the last used row when it lies below it |
| ShiftSpec.BlankStep | xl.py:127-130 | blanking a finished row gives it blanks over every used column and height 256, and moves the cursor to the row above |
| ShiftSpec.RowAddressable | xl.py:128 | after its columns, a source row has a record iff it had one or some column of it was copied |
| ShiftSpec.KeptMembers | xl.py:133-142 | the ranges the reconciliation keeps are exactly the original ones wholly above the insertion row |
| ShiftSpec.GrownMembers | xl.py:139-142 | the ranges it re-adds are exactly the straddling originals, grown by `amount` |
| ShiftProof.LiveLookup | xl.py:116-118 | during the walk, the skip test and range lookup on the live merge list agree with those on the original list |
| ShiftProof.ColumnStepWalk | xl.py:115-125 | one column step keeps the sheet equal to the closed form at the next cursor |
| ShiftProof.ColumnsWalk | xl.py:115-125 | the column loop of a row ends at the closed form after that row's last column |
| ShiftProof.ColumnsReadWalk | xl.py:115-117 | the reads of a row's column loop all succeed iff every cell of the row that the original ranges do not skip lies inside the re-read sheet |
| ShiftProof.RowStepDefined | xl.py:115-128 | a row step raises exactly when a non-skipped cell of the row lies outside the re-read sheet (IndexError), or the row has no record and no column of it was copied (KeyError) |
| ShiftProof.RowStepWalk | xl.py:114-130 | a completed row step ends at the closed form of the row above |
| ShiftProof.WalkGrid | xl.py:114-130 | whenever the row walk has not raised, its sheet is the closed form at that cursor |
| ShiftProof.WalkDefined | xl.py:114-130 | the row walk down to a row completes iff it gets through every source row from there to the last used row: each non-skipped cell of them lies inside the re-read sheet, and each row can be looked up when it is blanked |
| ShiftProof.ReconciledMerges | xl.py:133-142 | after the reconciliation loop the list is: kept originals, then the ranges registered by the walk, then the grown originals |
| ShiftProof.ReconciledMeaning | xl.py:132-142 | reconciling after a finished walk gives the layout InsertedLayout describes, and with well-formed, non-overlapping ranges the cells InsertedAs describes |
| ShiftProof.InsertRowsMeaning | xl.py:89-144 | `insert_rows` completes iff every non-skipped cell of the source rows lies inside the re-read sheet and every source row can be looked up when it is blanked (RowsComplete); its row records, column records, used bounds and ranges are then those of InsertedLayout, and with non-overlapping ranges its cells are those of InsertedAs |
| Inserted.ShiftedCell | xl.py:114-125 | a non-skipped cell of a source row at or below the insertion row is found `amount` rows lower, with its value and the style it had on entry: the descending walk reads each pattern cell before any copy lands on it |
| Inserted.RowsAboveKept | xl.py:114-142 | above the insertion row every cell is unchanged but those of a straddling range other than its anchor, which the re-merge blanks; every row record is unchanged but that a row of such a range without one gets the default height |
| Inserted.OpenedRows | xl.py:127-142 | the cells of the opened rows within the used area, and those a grown straddling range covers, hold blanks of the default style; the others are as they were |
| Inserted.OpenedRowHeights | xl.py:127-142 | an opened row that was a source row has height 256; one below the last used row keeps its record, or gets the default height when a grown straddling range reaches it |
| Inserted.ShiftedRowHeight | xl.py:125-130 | the destination of a copied row has the source's height when non-zero, else 256 if it was itself a source row, else its own |
| Inserted.MergedCellsBlank | xl.py:118-142 | with disjoint ranges, every cell of a moved or grown range other than its anchor is a blank of the default style, and its row has a record |
| Inserted.MovedInFills | xl.py:114-123 | with disjoint ranges, every original range anchored in the shifted area is written again `amount` rows lower during the walk |
| Inserted.ColumnWidths | xl.py:115-125 | existing column records keep their widths; a record is created exactly for the columns of copied cells |
| Inserted.UsedBounds | xl.py:103-142 | the used bounds never shrink and cover every range the call merges; the last used column stays or is the right column of such a range; the last used row grows by at most `amount` or is the bottom row of such a range, and by at least `amount` when the last row had a copied cell |
| Inserted.UsedBoundsWithin | xl.py:103-142 | when every original range lies within the used area, the last used column is unchanged and the last used row grows by at most `amount`, exactly by it when the last row had a copied cell |
| Inserted.UsedRowsGrow | xl.py:103-142 | with disjoint ranges that lie within the used area, the last used row grows by exactly `amount` whenever it is at or below the insertion row, copied cell or not |
| Inserted.FinalMergesFrom | xl.py:118-142 | every range left is a kept original, a grown original, or an original anchored in the shifted rows moved down by `amount` |
| Inserted.KeptRange | xl.py:133-136 | an original range wholly above the insertion row is still listed |
| Inserted.GrownRange | xl.py:139-142 | an original range straddling the insertion row is listed grown by `amount` |
| Inserted.MovedRange | xl.py:118-123 | with well-formed, non-overlapping ranges, an original range anchored in the shifted rows is listed moved down by `amount` |

## Left out

- The save and re-read of the workbook through xlrd (lines 94-100) is a
  snapshot of the sheet's cells on entry. File formats, sheet names and
  `buf_sheet.close()` are not modelled.
- The dimensions of the re-read sheet (`ReadBack`) are a parameter of
  `insert_rows`, not derived from the cells. xlrd's `nrows` and `ncols`
  depend on what the saved file holds; a last row record with no cells, for
  instance, can leave them smaller than the used bounds xlwt keeps.
- Values are text, numbers or blank (`Value`). xlrd reads a boolean back as
  1 or 0, a date as its serial number and a formula as its cached result, so
  the source writes such cells back as plain numbers or text. The model
  cannot express that change of kind and takes the read-back value to be the
  stored one.
- xlwt's own checks are not modelled: the 65536-row and 256-column limits and
  the assertions of `write_merge` on them.
- Worksheet.Sheet.Merge and Worksheet.Sheet.WriteMerge require r1 <= r2 and
  c1 <= c2. xlwt asserts this in `write_merge` only; xl.py calls `merge` with
  the bottom row grown, which keeps it for well-formed ranges.
- ShiftProof.InsertRowsMeaning: the cell-by-cell result (InsertedAs) is
  proved only when the ranges on entry do not overlap. With overlapping
  ranges, the blanks of one re-merged range can overwrite a cell that was
  already copied, and only the layout (InsertedLayout) is given. It also
  requires every range on entry to be well formed (r1 <= r2, c1 <= c2).
- `cell_overwrite_ok` is taken to be true: rewriting a cell does not raise.
- Style records are opaque indices (`xf`). Fonts, borders, pixel sizes, value
  encodings and the library's default style, height and width are left as
  parameters (`Defaults`).
- Xl.InsertRows: after an IndexError or a KeyError the partial state of the sheet is only
  known to be valid, as Python leaves it mid-loop.
- ShiftProof.InsertRowsMeaning requires `amount >= 1`. With `amount == 0` the
  source overwrites rows in place, and only the functional result
  (InsertRowsResult) is given for it. A negative `amount` is excluded by its
  type `nat`.
- Inserted.MovedRange requires ranges that do not overlap. With overlapping
  ranges the lookup may return a different range than the one anchored at
  the cell.
- Python truthiness: row and cell objects are present or absent. Zero widths
  and heights count as "not set", as `if col_width:` and `if row_height:` do.
