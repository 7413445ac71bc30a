/**
 * Option and Result, the two wrappers used across the model for Python's
 * `None` returns and for operations that can raise.
 */
module Wrappers {
  datatype Option<T> = None | Some(value: T)

  datatype Result<T> = Ok(value: T) | Err(error: string)
}
