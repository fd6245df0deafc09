/** Failure-carrying values used in place of Java's null and exceptions. */
module Wrappers {

  /** Java's `Optional` and nullable references. */
  datatype Option<+T> = None | Some(value: T)

  /** A computation that either yields a value or throws. */
  datatype Result<+T, +E> = Ok(value: T) | Err(error: E)

  /** A computation that yields nothing (`void`) or throws. */
  datatype Outcome<+E> = Pass | Fail(error: E)
}
