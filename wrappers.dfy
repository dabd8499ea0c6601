/** Option, the failure-compatible "maybe" value used for PHP's nullable results, and
    Outcome, a call that either returns or throws. */
module Wrappers {

  datatype Option<+T> = None | Some(value: T) {

    /** The value, or `default` when there is none (PHP's `??`). */
    function GetOr(default: T): T {
      match this
      case Some(v) => v
      case None => default
    }
  }

  /** A call that returns `value`, or an exception that no clause of the call catches. */
  datatype Outcome<+T> = Returned(value: T) | Threw
}
