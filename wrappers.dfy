/** Option and Result, the failure-carrying values used across the model. */
module Wrappers {

  /** A nullable value: Python's `None` or a value. */
  datatype Option<+T> = None | Some(value: T)

  /** The outcome of an operation that either returns a value or raises an error. */
  datatype Result<+R, +E> = Success(value: R) | Failure(error: E)
}
