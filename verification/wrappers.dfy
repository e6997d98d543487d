/** Failure-carrying values used across the model. */
module Wrappers {

  /** An optional value: `None` stands for a missing cell or a failed parse. */
  datatype Option<+T> = None | Some(value: T) {
    function GetOr(default: T): T {
      match this
      case Some(v) => v
      case None => default
    }
  }

  /** The outcome of an operation that the source lets raise an exception. */
  datatype Result<+R, +E> = Ok(value: R) | Err(error: E)
}
