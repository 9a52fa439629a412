/** Failure-carrying result types shared by the codec model. */
module Wrappers {

  datatype Option<+T> = None | Some(value: T)

  /** Go's `(value, error)` pair: either a value with a nil error, or an error. */
  datatype Result<+T, +E> = Ok(value: T) | Err(error: E)
}
