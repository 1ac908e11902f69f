/** Option, Result and Outcome: the shapes used for Java's Optional and for
    operations that either return a value or raise one named exception. */
module Wrappers {

  datatype Option<+T> = None | Some(value: T)

  /** A value, or the one error an operation raised. */
  datatype Result<+T, +E> = Success(value: T) | Failure(error: E)

  /** A check that passes, or fails with the first error it found. */
  datatype Outcome<+E> = Pass | Fail(error: E)
}
