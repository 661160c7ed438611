/**
  The sparse grid of an xlwt worksheet as a value: rows keyed by index, each row
  holding its height and its cells keyed by column, and the cell accessor of
  xl.py (`_get_cell`).
 */
module Cells {

  datatype Option<T> = None | Some(value: T)

  /** A cell value is opaque; `Blank` is what an absent cell reads as and what `''` writes. */
  datatype Value = Blank | Text(s: string) | Number(x: real)

  /** A written cell: its value and the index of its style (XF) record. */
  datatype Cell = Cell(value: Value, xf: int)

  /** A row record: its height and its cells, keyed by column. */
  datatype Row = Row(height: int, cells: map<nat, Cell>)

  /**
    The style index, row height and column width the library gives to a cell,
    a row or a column it creates. Their numeric values belong to the library
    and are kept opaque.
   */
  datatype Defaults = Defaults(xf: int, height: int, width: int)

  /** The cell at (row, col): None when the row record is absent or holds no cell at col. */
  function GetCell(rows: map<nat, Row>, row: nat, col: nat): (r: Option<Cell>)
    ensures row !in rows ==> r == None
    ensures row in rows && col !in rows[row].cells ==> r == None
    ensures r.Some? <==> row in rows && col in rows[row].cells
    ensures r.Some? ==> r.value == rows[row].cells[col]
  {
    if row !in rows then None
    else if col !in rows[row].cells then None
    else Some(rows[row].cells[col])
  }

  /** The height of row record `row`, if it exists. */
  function RowHeightAt(rows: map<nat, Row>, row: nat): Option<int>
  {
    if row in rows then Some(rows[row].height) else None
  }

  /** The width stored for column `col`, if its column record exists. */
  function ColWidthAt(cols: map<nat, int>, col: nat): Option<int>
  {
    if col in cols then Some(cols[col]) else None
  }

  /** The height `sheet.row(row).height` reads: the stored one, or the default of a freshly created row. */
  function HeightOf(rows: map<nat, Row>, row: nat, d: Defaults): int
  {
    if row in rows then rows[row].height else d.height
  }

  /** The width `sheet.col(col).width` reads: the stored one, or the default of a freshly created column. */
  function WidthOf(cols: map<nat, int>, col: nat, d: Defaults): int
  {
    if col in cols then cols[col] else d.width
  }

  /**
    The style index a cell written over (row, col)'s style ends up with: the
    stored cell's, or the default one the write gave when no cell was there.
   */
  function StyleAt(rows: map<nat, Row>, row: nat, col: nat, d: Defaults): int
  {
    match GetCell(rows, row, col)
    case Some(cell) => cell.xf
    case None => d.xf
  }

  /**
    The value the read-back copy of the sheet shows at a cell inside its
    dimensions (see Readable): absent cells read as blank.
   */
  function SnapshotValue(rows: map<nat, Row>, row: nat, col: nat): Value
  {
    match GetCell(rows, row, col)
    case Some(cell) => cell.value
    case None => Blank
  }

  /**
    The size xlrd reports for the sheet it reads back (`nrows`, `ncols`):
    `cell_value(row, col)` raises IndexError unless (row, col) lies inside it.
   */
  datatype ReadBack = ReadBack(nrows: nat, ncols: nat)

  /** `cell_value(row, col)` on the read-back sheet returns a value rather than raising IndexError. */
  predicate Readable(size: ReadBack, row: nat, col: nat)
  {
    row < size.nrows && col < size.ncols
  }

  /** The cells of row `row`, empty when the row record does not exist. */
  function CellsOf(rows: map<nat, Row>, row: nat): map<nat, Cell>
  {
    if row in rows then rows[row].cells else map[]
  }
}
