/** Option and Result values used in place of JavaScript's `undefined` and thrown errors. */
module Wrappers {

  datatype Option<+T> = None | Some(value: T) {
    function GetOr(default: T): T {
      match this
      case Some(v) => v
      case None => default
    }
  }

  /** `Err` carries the message of the error the source throws or reports. */
  datatype Result<+T, +E> = Ok(value: T) | Err(error: E)
}
