/** Optional values and outcomes shared by the modules of this project. */
module Wrappers {

  /** A value that may be absent: a missing JSON field, a failed parse. */
  datatype Option<+T> = None | Some(value: T) {

    /** The value, or `default` when absent (JavaScript's `x || default` for a field that is either an array or missing). */
    function GetOr(default: T): T {
      if Some? then value else default
    }
  }

  /** The outcome of an operation that can throw: a value, or the message of the error it raises. */
  datatype Result<+T, +E> = Success(value: T) | Failure(error: E)
}
