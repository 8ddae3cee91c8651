/** Failure-carrying values used in place of Java's null and exceptions. */
module Wrappers {

  /** A value or nothing (Java's null). */
  datatype Option<+T> = None | Some(value: T)

  /** A value, or the error a Java method would have thrown instead. */
  datatype Result<+T, +E> = Success(value: T) | Failure(error: E)

  /** Success or the error a Java method would have thrown, for methods without a result. */
  datatype Outcome<+E> = Pass | Fail(error: E)
}
