/** Failure-compatible result types shared by every module of the model.
    The scripts signal failure by throwing or by returning a sentinel; the
    model returns one of these instead. */
module Wrappers {

  /** A value that may be absent (`undefined`/`null` in the scripts). */
  datatype Option<+T> = None | Some(value: T) {
    function GetOr(default: T): T {
      match this
      case Some(v) => v
      case None => default
    }
  }

  /** The outcome of an operation that can throw: the value, or the error it throws. */
  datatype Result<+T, +E> = Ok(value: T) | Err(error: E) {
    predicate IsFailure() { Err? }

    function PropagateFailure<U>(): Result<U, E>
      requires Err?
    {
      Err(error)
    }

    function Extract(): T
      requires Ok?
    {
      value
    }
  }
}
