/** Failure-carrying values used throughout the model. */
module Wrappers {

  /** A value that may be absent (JavaScript `undefined` / `null`). */
  datatype Option<+T> = None | Some(value: T)

  /** An operation that either produced a value or threw. */
  datatype Result<+T, +E> = Ok(value: T) | Err(error: E)

  /** What `JSON.parse` gave: it threw, it produced a falsy value, or it produced an object. */
  datatype Parsed<+T> = Invalid | Falsy | Value(obj: T)
}
