/** Option and Result, the two failure-carrying values used by the model. */
module Wrappers {

  /** A value that may be absent; stands for Python's `None` / a present value. */
  datatype Option<+T> = None | Some(value: T)

  /** The outcome of an operation that may raise: its value, or the error it raises. */
  datatype Result<+R, +E> = Success(value: R) | Failure(error: E)
}
