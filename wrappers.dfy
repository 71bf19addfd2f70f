/** Option and Result, the two failure-carrying datatypes the model uses for
    Rust's `Option` and for the `unwrap()` calls that abort the run. */
module Wrappers {

  datatype Option<+T> = None | Some(value: T)

  datatype Result<+T, +E> = Success(value: T) | Failure(error: E)
}
