/** Option and Result, the two failure-carrying types every other module uses. */
module Wrappers {

  /** Rust's `Option`, Python's "value or None/NaN". */
  datatype Option<+T> = None | Some(value: T)

  /** Rust's `anyhow::Result`: a value or an error message. */
  datatype Result<+T> = Ok(value: T) | Err(error: string)
}
