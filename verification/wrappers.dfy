/** Option and Result, the shapes every query answer takes. */
module Wrappers {

  /** A value that may be absent: `undefined` from `find`, a missing query parameter. */
  datatype Option<+T> = None | Some(value: T)

  /** The answer of a route handler: a JSON body, or an error status with its message. */
  datatype Result<+T, +E> = Ok(value: T) | Err(error: E)
}
