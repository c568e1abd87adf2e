/** Failure kinds raised by the vector, matrix and linear-system operations,
    and the result wrappers that carry them back to the caller. */
module Errors {

  datatype Error =
    | SizeMismatch        // vector or matrix operands of incompatible size for + - or dot
    | DimensionMismatch   // matrix product or matrix-vector product of incompatible shapes
    | NotSquare           // determinant or inverse of a non-square matrix
    | IndexOutOfRange     // an index outside the valid range, 0-based or 1-based
    | IncompatibleSystem  // a linear system whose matrix is not square or does not match b
    | NotSymmetric        // a positive-symmetric system whose matrix is not symmetric

  /** The value of an operation that may throw. */
  datatype Result<T> = Ok(value: T) | Err(error: Error)

  /** The outcome of an operation that returns nothing but may throw. */
  datatype Outcome = Pass | Fail(error: Error)
}
