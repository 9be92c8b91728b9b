/** Optional values and results with an error, shared by every module of the model. */
module Wrappers {

  /** A value that may be missing (`undefined` in JavaScript). */
  datatype Option<+T> = None | Some(value: T)

  /** The value of an operation that can also throw: `Err` carries what was thrown. */
  datatype Result<+T, +E> = Ok(value: T) | Err(error: E)
}
