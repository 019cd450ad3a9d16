/** Option and Result, the two failure-carrying datatypes the model needs. */
module Wrappers {

  /** A value that may be absent: an empty CSV cell, an untouched input box. */
  datatype Option<+T> = None | Some(value: T)

  /** The outcome of an operation that can raise. */
  datatype Result<+T, +E> = Success(value: T) | Failure(error: E)
}
