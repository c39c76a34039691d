/** Optional values and failure-carrying results. */
module Wrappers {

  /** A value that may be missing: JavaScript's `undefined` (or `null`) becomes `None`. */
  datatype Option<+T> = None | Some(value: T)

  /** The outcome of an operation that can fail, as a rejected promise or a thrown error does. */
  datatype Result<+T, +E> = Success(value: T) | Failure(error: E)
}
