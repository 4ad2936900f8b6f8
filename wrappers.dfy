/** Option and Result datatypes shared by the model. */
module Wrappers {

  /** A value that may be absent (JavaScript `undefined` or `null`). */
  datatype Option<+T> = None | Some(value: T)

  /** The outcome of an expression that may throw. */
  datatype Result<+R, +E> = Ok(value: R) | Err(error: E)
}
