/** Option and Result: the model's stand-ins for Kotlin's nullable types and thrown exceptions. */
module Wrappers {

  /** A nullable value: `None` plays Kotlin's `null`. */
  datatype Option<+T> = None | Some(value: T) {

    /** The value, or `default` when absent (Kotlin's `?:`). */
    function GetOr(default: T): T {
      match this
      case Some(v) => v
      case None => default
    }
  }

  /** A computation that either succeeds or raises the error carried by `Failure`. */
  datatype Result<+R, +E> = Success(value: R) | Failure(error: E)
}
