/** Failure-carrying values: `Option` for "maybe absent", `Result` for the
    outcome of an operation that may raise. */
module Wrappers {

  datatype Option<+T> = None | Some(value: T) {

    /** The wrapped value, or `default` when there is none. */
    function GetOr(default: T): T {
      match this
      case Some(v) => v
      case None => default
    }
  }

  /** `Ok` carries the value an operation produced, `Err` the message of the
      exception it raised. */
  datatype Result<+T, +E> = Ok(value: T) | Err(error: E)
}
