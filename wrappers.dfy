/** Option and Result, the two failure-carrying shapes the model needs. */
module Wrappers {

  datatype Option<+T> = None | Some(value: T)

  /** `Result<R, E>` stands for Rust's `Result<R, E>`. */
  datatype Result<+R, +E> = Success(value: R) | Failure(error: E)
}
