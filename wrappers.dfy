/** Option, Result and Outcome: the Rust `Option`, `Result<T, E>` and a
    result without a value, used by every provider. */
module Wrappers {

  datatype Option<+T> = None | Some(value: T)

  datatype Result<+T, +E> = Ok(value: T) | Err(error: E)

  /** The outcome of a step that yields nothing on success (e.g. opening a session). */
  datatype Outcome<+E> = Pass | Fail(failure: E)
}
