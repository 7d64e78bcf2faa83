/** Option and Result values used by every module of the model. */
module Wrappers {

  /** An optional value: JavaScript's `null`/`undefined` become `None`. */
  datatype Option<+T> = None | Some(value: T)

  /** The outcome of an operation that may throw: `Err` carries the error message. */
  datatype Result<+T, +E> = Ok(value: T) | Err(error: E)
}
