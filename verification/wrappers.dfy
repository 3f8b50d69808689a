/** Failure-carrying datatypes shared by the rest of the model. */
module Wrappers {

  /** A value that may be absent: Python's `None` versus a present value. */
  datatype Option<+T> = None | Some(value: T) {

    /** The value, or `default` when it is absent. */
    function GetOr(default: T): T {
      match this
      case Some(v) => v
      case None => default
    }
  }

  /** Either a value or the error that prevented computing it (a raised exception). */
  datatype Result<+R, +E> = Success(value: R) | Failure(error: E)
}
