/** Optional values and fallible results used throughout the model. */
module Wrappers {

  /** A value that may be absent: Python's `None` versus a present value. */
  datatype Option<+T> = None | Some(value: T)

  /** The outcome of a computation that may abort with an error. */
  datatype Result<+R, +E> = Success(value: R) | Failure(error: E)
}
