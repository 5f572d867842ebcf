/** Option and Result values used for the assembler's nil pointers and its error returns. */
module Wrappers {

  datatype Option<+T> = None | Some(value: T)

  /** A computation that either succeeds with a value or fails with a message
      (Go's `(value, error)` pair and the model of a `panic`). */
  datatype Result<+T> = Success(value: T) | Failure(error: string)
}
