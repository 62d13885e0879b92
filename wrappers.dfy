/** Option and Result, the two failure-carrying shapes the model needs. */
module Wrappers {

  /** A value that may be missing: JavaScript's `undefined`, `NaN` or `-1` results. */
  datatype Option<+T> = None | Some(value: T)

  /** A value or the error that a call raised instead. */
  datatype Result<+T, +E> = Ok(value: T) | Err(error: E)
}
