/** Failure-carrying values that stand in for Java's null references and
    checked exceptions. */
module Wrappers {

  /** A value that may be absent (a Java field that still holds null). */
  datatype Option<+T> = None | Some(value: T)

  /** The outcome of a call that returns a value or throws. */
  datatype Result<+T, +E> = Success(value: T) | Failure(error: E)

  /** The outcome of a void call that may throw. */
  datatype Outcome<+E> = Pass | Fail(error: E)
}
