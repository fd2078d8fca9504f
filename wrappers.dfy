/** Option and Result, the two wrappers the model uses for `undefined` and for thrown errors. */
module Wrappers {

  /** A value that may be absent: `rows[0]` of an empty result set, a NULL column, a missing argument. */
  datatype Option<+T> = None | Some(value: T) {
    function GetOr(default: T): T {
      match this
      case Some(v) => v
      case None => default
    }
  }

  /** The outcome of an operation that returns nothing or throws. */
  datatype Outcome<+E> = Pass | Fail(error: E)

  /** The outcome of an operation that either returns a value or throws. */
  datatype Result<+T, +E> = Success(value: T) | Failure(error: E)
}
