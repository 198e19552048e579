/**
 The values the labour-spreadsheet normaliser works on: cells of a sheet read
 without a header, rectangular grids of them, the long-format table built for
 one year, and the ways processing one sheet can fail.
 */
module Cells {

  datatype Option<+T> = None | Some(value: T)

  datatype Result<+T, +E> = Ok(value: T) | Err(error: E)

  /** One spreadsheet cell: text, any other value (a number, a date), or an empty cell.
      Non-text values are never computed with, so they are kept as an opaque code. */
  datatype Cell = Str(text: string) | Other(code: int) | Missing

  type Row = seq<Cell>

  /** A grid of cells with a fixed number of columns, as a data frame holds it. */
  datatype Frame = Frame(width: nat, rows: seq<Row>)

  predicate Rectangular(f: Frame) {
    forall k :: 0 <= k < |f.rows| ==> |f.rows[k]| == f.width
  }

  /** A sheet as read from a file: every row has the sheet's column count. */
  type Sheet = f: Frame | Rectangular(f) witness Frame(0, [])

  /** One row of the long-format table: a month range with its two metrics. */
  datatype MonthRow = MonthRow(month: string, population: Cell, workforce: Cell)

  type YearTable = seq<MonthRow>

  /** Why one sheet could not be turned into a year table. */
  datatype SheetError =
    | MissingTitleRows                    // fewer than two rows: dropping rows 0 and 1 fails
    | MissingHeaderRow                    // no row left to promote to the header
    | ColumnCountMismatch(width: nat)     // nine column names cannot be assigned
    | SelectionNotSingle(count: nat)      // the month frames cannot be built from `count` rows
}
