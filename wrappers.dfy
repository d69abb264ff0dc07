/** Option and Result, the two failure-compatible wrappers the model uses for
    JavaScript's `null`/`undefined`/NaN and for the exceptions the node throws. */
module Wrappers {

  datatype Option<+T> = None | Some(value: T) {
    /** The wrapped value, or `default` when there is none */
    function GetOr(default: T): T {
      match this
      case Some(v) => v
      case None => default
    }
  }

  datatype Result<+R, +E> = Success(value: R) | Failure(error: E)
}
