/** Wrappers for Ruby's nil and raised exceptions. */
module Wrappers {

  /** A value or Ruby's nil. */
  datatype Option<+T> = None | Some(value: T) {
    function GetOr(default: T): T {
      match this
      case Some(v) => v
      case None => default
    }
  }

  /** A value, or the exception raised while computing it. */
  datatype Result<+T, +E> = Ok(value: T) | Err(error: E)

  /** Completion of an operation run for its effect, or the exception it raised. */
  datatype Outcome<+E> = Pass | Fail(error: E)
}
