/** Failure-compatible result types standing in for Java's null returns and exceptions. */
module Wrappers {

  /** A value that may be absent: Java's `null` / `Optional.empty()`. */
  datatype Option<+T> = None | Some(value: T)

  /** A value or the exception that was thrown instead. */
  datatype Result<+R, +E> = Success(value: R) | Failure(error: E)

  /** A `void` call that either returns normally or throws. */
  datatype Outcome<+E> = Pass | Fail(error: E)
}
