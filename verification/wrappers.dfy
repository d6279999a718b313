/** Failure-carrying datatypes used for the error returns of the model. */
module Wrappers {

  /** An optional value: Go's `(value, ok)` pairs and nil results. */
  datatype Option<+T> = None | Some(value: T)

  /** A value or an error: Go's `(value, err)` pairs. */
  datatype Result<+T, +E> = Ok(value: T) | Err(error: E)
}
