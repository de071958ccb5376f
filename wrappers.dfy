/** Failure-carrying results used throughout the model, standing in for Go's
    `(value, error)` pairs and bare `error` returns. */
module Wrappers {

  datatype Option<T> = None | Some(value: T)

  /** A value or the error that replaced it: Go's `(T, error)`. */
  datatype Result<T, E> = Ok(value: T) | Err(error: E)

  /** A bare Go `error` return: `nil` is `Pass`. */
  datatype Outcome<E> = Pass | Fail(error: E)
}
