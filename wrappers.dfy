/** The optional value and the outcome-or-error value used throughout the
    model (Python's `None` or a value; a return value or a raised error). */
module Wrappers {
  datatype Option<+T> = None | Some(value: T)

  datatype Result<+T, +E> = Ok(value: T) | Err(error: E)
}
