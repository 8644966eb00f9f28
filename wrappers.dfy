/** Failure-carrying result types shared by the whole model. */
module Wrappers {

  /** An optional value, used where the source uses `null` or sends nothing. */
  datatype Option<+T> = None | Some(value: T) {
    function GetOr(default: T): T {
      match this
      case Some(v) => v
      case None => default
    }
  }

  /** The outcome of an operation that can throw: a value, or the kind of exception. */
  datatype Result<+T, +E> = Ok(value: T) | Err(error: E)
}
