/** Option and Result, the failure-carrying values the model uses in place of
    Rust's `Option`, `unwrap` and panics. */
module Wrappers {

  datatype Option<+T> = None | Some(value: T)

  datatype Result<+T, +E> = Ok(value: T) | Err(error: E)
}
