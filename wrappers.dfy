/** Option, Result and Outcome, used for the nullable values and the exceptions of the source. */
module Wrappers {

  /** A value that may be absent (a C# null). */
  datatype Option<+T> = None | Some(value: T)

  /** The value of an operation that either returns `value` or throws `error`. */
  datatype Result<+R, +E> = Success(value: R) | Failure(error: E)

  /** The outcome of an operation that returns nothing or throws `error`. */
  datatype Outcome<+E> = Pass | Fail(error: E)
}
