/** Failure-carrying values used across the model: `Option` for Python's
    "a value or None", `Result` for an external call that either answers or
    raises. */
module Wrappers {

  datatype Option<+T> = None | Some(value: T)

  datatype Result<+T, +E> = Success(value: T) | Failure(error: E)
}
