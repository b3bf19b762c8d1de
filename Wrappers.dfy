/** Failure-carrying values used in place of C# null results and thrown exceptions. */
module Wrappers {

  /** A value that may be absent; stands for a reference that may be null. */
  datatype Option<+T> = None | Some(value: T)

  /** A value or an error; stands for a call that returns or throws. */
  datatype Result<+R, +E> = Success(value: R) | Failure(error: E)

  /** Success or an error, for calls that return nothing when they succeed. */
  datatype Outcome<+E> = Pass | Fail(error: E)
}
