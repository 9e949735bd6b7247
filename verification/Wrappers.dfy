/** The two result shapes every component shares. */
module Wrappers {
  datatype Option<+T> = None | Some(value: T)

  /** `Err` carries the exception the source raises. */
  datatype Result<+T, +E> = Ok(value: T) | Err(error: E)
}
