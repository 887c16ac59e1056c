/** Optional values and results with an error message, as the snippet manager passes them around. */
module Wrappers {

  /** A value that may be absent (JavaScript `undefined` or `null`). */
  datatype Option<+T> = None | Some(value: T)

  /** The outcome of a service call: a value, or a rejected promise carrying its error message. */
  datatype Result<+T> = Success(value: T) | Failure(error: string)
}
