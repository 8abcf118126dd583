/** Option and Result, the two failure-carrying shapes the model needs. */
module Wrappers {

  /** An optional value: Rust's `Option`, or a JSON field that may be absent. */
  datatype Option<+T> = None | Some(value: T)

  /** Either a value or an error: Rust's `Result`. */
  datatype Result<+R, +E> = Success(value: R) | Failure(error: E)
}
