/** Option and Result, standing for Rust's `Option<T>` and `Result<T, E>`. */
module Wrappers {

  datatype Option<+T> = None | Some(value: T)

  datatype Result<+R, +E> = Ok(value: R) | Err(error: E)
}
