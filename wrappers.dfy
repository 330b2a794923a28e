/** Option and Result values shared by every module of the model. */
module Wrappers {

  /** A value that may be absent: Java `null`, or "not found". */
  datatype Option<+T> = None | Some(value: T) {
    predicate IsSome() { Some? }

    function UnwrapOr(default: T): T {
      match this
      case Some(v) => v
      case None => default
    }
  }

  /** The outcome of an operation that can throw: `Err` names the exception. */
  datatype Result<+T, +E> = Ok(value: T) | Err(error: E) {
    predicate IsOk() { Ok? }
  }
}
