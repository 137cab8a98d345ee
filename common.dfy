/**
 * Shared vocabulary of the spreadsheet engine: positions, the value a cell
 * reports, and the formula error categories.
 *
 * The addressing module that defines `Position::IsValid` is not part of this
 * model; validity is taken to be "non-negative and below the grid bound".
 */
module Common {

  datatype Option<+T> = None | Some(value: T)

  /** Largest number of rows and columns a sheet may address. */
  const MaxRows: int := 16384
  const MaxCols: int := 16384

  /** A (row, column) pair; negative or too large pairs are representable and invalid. */
  datatype Pos = Pos(row: int, col: int)

  predicate IsValid(p: Pos) {
    0 <= p.row < MaxRows && 0 <= p.col < MaxCols
  }

  /** The categories of `FormulaError`. */
  datatype Category = Ref | Value | Div0

  /**
   * What `CellInterface::GetValue` returns: a string, a number or a formula
   * error. Numbers are doubles in the source; here they are reals and no
   * arithmetic is done on them.
   */
  datatype CellValue = Str(s: string) | Num(x: real) | Err(category: Category)
}
