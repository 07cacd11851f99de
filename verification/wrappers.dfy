/** Failure-compatible result types shared by the model. */
module Wrappers {

  /** An optional value: the model's stand-in for a JavaScript `null`/`undefined`
      or for a read that did not succeed. */
  datatype Option<+T> = None | Some(value: T) {

    /** The value, or `default` when absent. */
    function GetOr(default: T): T {
      match this
      case Some(v) => v
      case None => default
    }
  }

  /** A value or an error, standing for code that may throw. */
  datatype Result<+R, +E> = Success(value: R) | Failure(error: E)
}
