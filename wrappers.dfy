/** Optional values and results with an error, shared by every module of the model. */
module Wrappers {

  /** A value that may be absent: JavaScript's `null`/`undefined` against a present value. */
  datatype Option<+T> = None | Some(value: T)

  /** The outcome of a check: a value to go on with, or the reason for refusing. */
  datatype Result<+T, +E> = Ok(value: T) | Err(error: E)
}
