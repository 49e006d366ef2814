/** Wrappers shared by the other modules: the Rust
    `Option<T>` and `Result<T, E>` of the modelled code. */
module Wrappers {

  datatype Option<+T> = None | Some(value: T)

  datatype Result<+T, +E> = Success(value: T) | Failure(error: E)
}
