/** Option and Result: absent values and failing operations. */
module Wrappers {

  /** A value that may be absent (Python's `None`). */
  datatype Option<+T> = None | Some(value: T)

  /** The outcome of an operation that may fail. */
  datatype Result<+R, +E> = Success(value: R) | Failure(error: E)
}
