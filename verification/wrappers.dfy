/** Optional values and success/failure results shared by the roster and link models. */
module Wrappers {

  /** A value that may be absent: JavaScript's `undefined` next to a present value. */
  datatype Option<+T> = None | Some(value: T)

  /** The outcome of an operation that either produces a value or reports an error. */
  datatype Result<+R, +E> = Success(value: R) | Failure(error: E)
}
