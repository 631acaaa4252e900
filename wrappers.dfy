/** Explicit "found / not found" and "succeeded / failed" results. */
module Wrappers {

  /** What a Java `Optional` holds: a value, or nothing. */
  datatype Option<T> = None | Some(value: T)

  /** A value, or the error that an exception would have carried. */
  datatype Result<T, E> = Success(value: T) | Failure(error: E)

  /** A check that either passes or fails with an error (a `void` method that may throw). */
  datatype Outcome<E> = Pass | Fail(error: E)
}
