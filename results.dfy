/** Error reporting of the matrix library: every failure of the library is an
    assertion that raises an error carrying a fixed message. */
module Results {

  /** A value, or the message of the assertion that failed. */
  datatype Result<T> = Ok(value: T) | Err(msg: string)

  /** Outcome of an operation that only changes its receiver. */
  datatype Outcome = Pass | Fail(msg: string)

  const InvalidRow: string := "Invalid row index"
  const InvalidColumn: string := "Invalid column index"
  const NotSquare: string := "Matrix is not square"
  const MustBeSquare: string := "Matrix must be square"
  const Singular: string := "Matrix is singular"
  const InvalidDimensions: string := "Invalid matrices dimensions"
  const NotPositive: string := "Param argument must be a positive number"
  const RowLength: string := "New row must have the same number of columns"
  const ColumnLength: string := "New column must have the same number of rows"
  const HorzcatRows: string := "Both matrices must have the same number of rows for horizontal concatenation"
  const VertcatColumns: string := "Both matrices must have the same number of columns for vertical concatenation"
}
