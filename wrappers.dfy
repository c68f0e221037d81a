/** Option and outcome types for the nullable values and the exceptions of the source. */
module Wrappers {

  datatype Option<+T> = None | Some(value: T)

  /** A value, or the error that prevented it. */
  datatype Result<+T, +E> = Success(value: T) | Failure(error: E)

  /** The outcome of an operation that either completes or throws the given error. */
  datatype Outcome<+E> = Pass | Fail(error: E)
}
