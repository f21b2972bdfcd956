/** Failure-carrying wrappers shared by the other modules. */
module Wrappers {

  /** A value that may be absent (an undefined query parameter, `NaN`, a regex that does not match). */
  datatype Option<+T> = None | Some(value: T)

  /** The outcome of an operation that may throw. */
  datatype Result<+T, +E> = Ok(value: T) | Err(error: E)
}
