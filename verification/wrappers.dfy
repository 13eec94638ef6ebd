/** Failure-carrying wrappers used across the model. */
module Wrappers {

  /** An optional value: `Option<T>` in Rust. */
  datatype Option<+T> = None | Some(value: T)

  /** Either a value or an error: `Result<T, E>` in Rust. */
  datatype Result<+T, +E> = Success(value: T) | Failure(error: E)
}
