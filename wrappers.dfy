/** Failure-compatible wrappers shared by every module of the model. */
module Wrappers {

  /** A value that may be missing: an absent file, an absent JSON key. */
  datatype Option<+T> = None | Some(value: T)

  /** The result of an operation that raises in Python. */
  datatype Result<+T, +E> = Ok(value: T) | Err(error: E)
}
