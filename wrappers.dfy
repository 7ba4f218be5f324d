/** Result type standing for Rust's `Result<T, E>`. */
module Wrappers {

  datatype Result<+T, +E> = Ok(value: T) | Err(error: E)

}
