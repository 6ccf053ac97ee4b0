/** Option and Result types standing in for Java's null returns and thrown exceptions. */
module Wrappers {

  /** `None` stands for a Java `null`. */
  datatype Option<+T> = None | Some(value: T)

  /** `Failure` stands for an exception that leaves the operation. */
  datatype Result<+R, +E> = Success(value: R) | Failure(error: E)

  /** An operation without a result value that either completes or throws. */
  datatype Outcome<+E> = Pass | Fail(error: E)
}
