/** Result types standing in for Java's null returns and thrown exceptions. */
module Outcomes {

  /** A value that may be missing (a Java reference that may be null). */
  datatype Option<+T> = None | Some(value: T)

  /** A call that either returns a value or throws the given failure. */
  datatype Result<+T, +X> = Success(value: T) | Failure(error: X)

  /** A call without a return value that either completes or throws. */
  datatype Outcome<+X> = Pass | Fail(error: X)
}
