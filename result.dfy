/** The outcome of an operation that can fail: a value, or the reason it failed. */
module Outcomes {
  datatype Result<+T, +E> = Ok(value: T) | Err(error: E)

  /** A value that may be absent. */
  datatype Option<+T> = None | Some(value: T)
}
