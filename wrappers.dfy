/** Option and Result values for the places where the Rust source returns
    an `Option`, or panics, or returns a `Result`. */
module Wrappers {

  datatype Option<+T> = None | Some(value: T)

  datatype Result<+T, +E> = Ok(value: T) | Err(error: E)
}
