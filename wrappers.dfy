/** Option and Result, the two failure-carrying wrappers the rest of the model uses. */
module Wrappers {

  /** A value that may be absent; PHP's `null` where the source returns `?T`. */
  datatype Option<+T> = None | Some(value: T)

  /** A value or the error that the source would throw instead. */
  datatype Result<+T, +E> = Success(value: T) | Failure(error: E)
}
