/** Optional values and success-or-error results shared by the whole model. */
module Wrappers {

  /** A value that may be absent: a nullable column, or a lookup that found nothing. */
  datatype Option<T> = None | Some(value: T)

  /** The outcome of an operation that either succeeds with a value or fails with an error. */
  datatype Result<R, E> = Success(value: R) | Failure(error: E)
}
