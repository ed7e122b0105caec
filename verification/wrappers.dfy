/** Option and Result, shared by the modules. */
module Wrappers {

  /** A value that may be absent: Python's `None` versus a present value. */
  datatype Option<+T> = None | Some(value: T) {

    /** The value, or `default` when there is none. */
    function GetOr(default: T): T {
      match this
      case Some(v) => v
      case None => default
    }
  }

  /** The value of a step that may raise instead: Python's return-or-exception. */
  datatype Result<+R, +E> = Success(value: R) | Failure(error: E)
}
