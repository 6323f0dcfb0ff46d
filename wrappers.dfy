/** Failure-carrying results shared by the other modules. */
module Wrappers {

  datatype Option<+T> = None | Some(value: T)

  /** An operation that yields a value or an error. */
  datatype Result<+R, +E> = Success(value: R) | Failure(error: E)

  /** An operation that yields no value, only success or an error. */
  datatype Outcome<+E> = Pass | Fail(error: E)
}
