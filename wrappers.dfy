/** Option and Result, the two ways an operation of the model reports "no value". */
module Wrappers {

  /** A value that may be missing (`undefined` or NaN in the source). */
  datatype Option<+T> = None | Some(value: T)

  /** The outcome of an operation that can fail with an error `E`. */
  datatype Result<+T, +E> = Ok(value: T) | Err(error: E)
}
