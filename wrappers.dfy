/** Failure-compatible return values, standing for Rust's `Option` and
    `Result<_, &str>` (every error in this layer is a static message). */
module Wrappers {

  datatype Option<+T> = None | Some(value: T)

  datatype Result<+T> = Ok(value: T) | Err(error: string)
}
