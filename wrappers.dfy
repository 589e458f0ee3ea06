/** Failure-carrying results, as the store's calls return either a value or an error. */
module Wrappers {

  /** A value, or the error that took its place. */
  datatype Result<+R, +E> = Success(value: R) | Failure(error: E)

  /** Success without a value, or the error. */
  datatype Outcome<+E> = Pass | Fail(error: E)
}
