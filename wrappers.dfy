/** Value forms of what the component signals by returning or throwing. */
module Wrappers {

  /** A value that may be absent (Java's nullable reference). */
  datatype Option<+T> = None | Some(value: T)

  /** A computed value, or the error the call would throw instead. */
  datatype Result<+T, +E> = Success(value: T) | Failure(error: E)

  /** A call that either completes or throws the given error. */
  datatype Outcome<+E> = Pass | Fail(error: E)
}
