/** Optional values and results shared by the other modules. */
module Wrappers {

  /** An optional value: an unset std::function is None. */
  datatype Option<+T> = None | Some(value: T)

  /** The outcome of an operation that may throw. */
  datatype Result<+R, +E> = Success(value: R) | Failure(error: E)
}
