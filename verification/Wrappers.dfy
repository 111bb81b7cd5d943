/** Failure values shared by every component of the model. */
module Wrappers {

  datatype Option<+T> = None | Some(value: T)

  /** A JavaScript call either returns a value or throws an error with a code. */
  datatype Result<+T, +E> = Ok(value: T) | Err(error: E)
}
