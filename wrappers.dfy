/** Option and Result, used for PHP's nullable returns and thrown exceptions. */
module Wrappers {

  datatype Option<+T> = None | Some(value: T)

  datatype Result<+T, +E> = Success(value: T) | Failure(error: E)

  /** A check that either passes or fails with an error and carries no value. */
  datatype Outcome<+E> = Pass | Fail(error: E)
}
