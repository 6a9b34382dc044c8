/**
  The failures an S21Matrix operation can signal. The C++ class throws
  std::out_of_range for all of them; each kind here corresponds to one of the
  messages it throws with.
 */
module Errors {

  datatype Error =
    | InvalidDimension    // "incorrect matrix": a dimension below 1, or an empty operand
    | DimensionMismatch   // "different dimensions of matrices": sum or difference of unequal shapes
    | ShapeMismatch       // "sides are not equal": product with cols != other.rows
    | NotSquare           // "matrix is not square"
    | Singular            // "calculation impossible: Determinant = 0"
    | IndexOutOfRange     // "index outside matrix"

  /** The value an operation returns, or the exception it throws. */
  datatype Result<T> = Success(value: T) | Failure(error: Error)

  /** The outcome of a void operation: it returns, or it throws. */
  datatype Outcome = Pass | Fail(error: Error)
}
