/** Failure-carrying values shared by the modules of this model. */
module Wrappers {

  /** Go's "value, ok" pair and its nil results. */
  datatype Option<+T> = None | Some(value: T)

  /** Go's "value, err" pair: either a value or the error that replaced it. */
  datatype Result<+T, +E> = Ok(value: T) | Err(error: E)
}
