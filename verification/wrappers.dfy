/** Option and Result, for PHP's nullable returns and exceptions. */
module Wrappers {

  /** A value that may be absent (PHP `null`). */
  datatype Option<+T> = None | Some(value: T)

  /** The outcome of an operation that may throw: the value, or the exception raised. */
  datatype Result<+T, +E> = Ok(value: T) | Err(error: E)
}
