/** Failure-carrying results used to model Python's exceptions and optional values. */
module Wrappers {

  datatype Option<+T> = None | Some(value: T)

  /** A value, or the error the Python code raises instead of returning one. */
  datatype Result<+T, +E> = Success(value: T) | Failure(error: E)

  /** The outcome of a call made only for its effect: it returns, or it raises. */
  datatype Outcome<+E> = Pass | Fail(error: E)
}
