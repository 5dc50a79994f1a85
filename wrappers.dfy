/** Option and Result wrappers shared by the whole model. */
module Wrappers {

  datatype Option<+T> = None | Some(value: T) {

    function GetOr(default: T): T {
      match this
      case Some(v) => v
      case None => default
    }
  }

  /** An operation that either succeeds with a value or raises an error (an exception in the source). */
  datatype Result<+R, +E> = Success(value: R) | Failure(error: E)
}
