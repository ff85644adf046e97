/** Option and Result: the model's stand-ins for Kotlin's nullable results and thrown exceptions. */
module Wrappers {

  datatype Option<+T> = None | Some(value: T) {
    /** The value, or `default` when absent (Kotlin's `?:`). */
    function GetOr(default: T): T {
      match this
      case Some(v) => v
      case None => default
    }
  }

  /** `Err` stands for an exception the source throws before committing anything. */
  datatype Result<+T, +E> = Ok(value: T) | Err(error: E)
}
