/** Optional values and results: Kotlin's nullable values and thrown exceptions. */
module Wrappers {

  /** A Kotlin `T?`: either no value (null) or a value. */
  datatype Option<+T> = None | Some(value: T)

  /** The outcome of an operation that the source may abort by throwing. */
  datatype Result<+T, +E> = Success(value: T) | Failure(error: E)
}
