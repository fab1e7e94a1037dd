/** Failure-compatible option type shared by the model's modules. */
module Wrappers {

  /** Some value, or nothing (Python's None, a missing key, a raised exception). */
  datatype Option<+T> = None | Some(value: T) {

    /** The wrapped value, or `default` when there is none. */
    function GetOr(default: T): T {
      match this
      case Some(v) => v
      case None => default
    }
  }
}
