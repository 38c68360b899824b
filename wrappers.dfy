/** Option and Result, the two failure-carrying shapes used throughout the model. */
module Wrappers {

  /** A value that may be absent (a Go pointer that may be nil). */
  datatype Option<+T> = None | Some(value: T)

  /** The outcome of an operation that may fail with an error message (Go's `(value, err)` pair). */
  datatype Result<+T> = Success(value: T) | Failure(error: string)
}
