/** Failure-carrying results shared by both generators. */
module Results {

  /** A value that may be absent. */
  datatype Option<+T> = None | Some(value: T)

  /** The outcome of an operation that either produces a value or fails where
      the JavaScript code throws. */
  datatype Result<+T, +E> = Success(value: T) | Failure(error: E)
}
