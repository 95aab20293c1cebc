/** Failure-carrying wrappers shared by the route test and the exception model. */
module Results {

  /** A value that may be absent, e.g. PHP's `current()` of an empty array, which yields `false`. */
  datatype Option<+T> = None | Some(value: T)

  /** The outcome of a check that passes or fails with a reason, as a PHPUnit assertion does. */
  datatype Outcome<+E> = Pass | Fail(error: E)

  /** A value or the error that stopped it from being produced. */
  datatype Result<+R, +E> = Success(value: R) | Failure(error: E)
}
