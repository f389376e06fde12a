/** Failure-compatible values shared by the modules of this model. */
module Wrappers {

  datatype Option<+T> = None | Some(value: T)

  /** A Go `(value, error)` pair: either the value or the error text. */
  datatype Result<+T> = Success(value: T) | Failure(error: string)
}
