/** Failure-compatible result types used throughout the model. */
module Wrappers {

  /** A value that may be absent: a lookup that found nothing, a `find` with no match. */
  datatype Option<+T> = None | Some(value: T)

  /** The outcome of an operation that can abort the run. */
  datatype Result<+R, +E> = Success(value: R) | Failure(error: E)
}
