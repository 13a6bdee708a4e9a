/** Failure-carrying values used in place of thrown errors and null results. */
module Wrappers {

  /** A lookup that may find nothing (the source's `null`). */
  datatype Option<+T> = None | Some(value: T)

  /** The value of an operation, or the error it raised. */
  datatype Result<+T, +E> = Ok(value: T) | Err(error: E)

  /** A check that either passes or fails with an error. */
  datatype Outcome<+E> = Pass | Fail(error: E)
}
