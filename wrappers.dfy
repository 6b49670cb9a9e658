/** Failure-carrying values used in place of Python's `None` returns and raised exceptions. */
module Wrappers {

  /** A value or its absence (Python's `None`). */
  datatype Option<+T> = None | Some(value: T)

  /** A value, or the error that stopped its computation. */
  datatype Result<+T, +E> = Ok(value: T) | Err(error: E)
}
