/** Option and result types shared by every module of the model. */
module Wrappers {

  /** A value that may be absent (JavaScript `undefined`). */
  datatype Option<+T> = None | Some(value: T)

  /** The outcome of an operation that either succeeds with a value or throws. */
  datatype Result<+T, +E> = Ok(value: T) | Err(error: E)
}
