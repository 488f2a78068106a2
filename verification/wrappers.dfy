/** Failure-carrying datatypes shared by the rest of the model. */
module Wrappers {

  /** An optional value: the model's stand-in for Python's `None`. */
  datatype Option<+T> = None | Some(value: T)

  /** The outcome of an operation that either succeeds with a value or
      reports one of the application's error messages. */
  datatype Result<+R, +E> = Success(value: R) | Failure(error: E)
}
