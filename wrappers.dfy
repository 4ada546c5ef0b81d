/** Option and Result: the shapes used here for Rust's `Option`, and for a panic
    that the model turns into an error value. */
module Wrappers {

  datatype Option<+T> = None | Some(value: T)

  datatype Result<+R, +E> = Success(value: R) | Failure(error: E)
}
