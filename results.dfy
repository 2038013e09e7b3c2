/** Failure-carrying wrappers shared by the front-end and back-end models. */
module Results {

  /** A value that may be absent (JavaScript `undefined`/`NaN`, an empty schedule). */
  datatype Option<+T> = None | Some(value: T)

  /** The outcome of an operation that either yields a value or reports an error. */
  datatype Result<+R, +E> = Success(value: R) | Failure(error: E)
}
