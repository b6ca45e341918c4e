/** Optional values and fallible results shared by the other modules. */
module Wrappers {

  /** A value that may be absent: JavaScript's `null` and `undefined` both map to `None`. */
  datatype Option<+T> = None | Some(value: T)

  /** The outcome of an operation that can throw. */
  datatype Result<+T, +E> = Success(value: T) | Failure(error: E)
}
