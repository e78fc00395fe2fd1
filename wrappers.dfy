/** Failure-compatible wrappers used by the NAICS model. */
module Wrappers {

  /** An optional value; `None` stands for a pandas NaN cell. */
  datatype Option<+T> = None | Some(value: T)

  /** A computation that either succeeds or raises an error. */
  datatype Result<+T, +E> = Success(value: T) | Failure(error: E)
}
