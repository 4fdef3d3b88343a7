/** Failure-carrying datatypes shared by every module of the model. */
module Wrappers {

  /** Python's `Optional[T]`: `None` or a present value. */
  datatype Option<+T> = None | Some(value: T) {
    function GetOr(default: T): T {
      match this
      case Some(v) => v
      case None => default
    }
  }

  /** The result of a Python call that may let an exception escape:
      either it returns a value, or it raises (the exception's class name is kept). */
  datatype Outcome<+T> = Returns(value: T) | Raises(exception: string)

  /** A call on mutable state: the state it leaves behind (also when it raises
      part-way, with the updates made before the exception) and its outcome. */
  datatype Effect<+S, +T> = Effect(state: S, outcome: Outcome<T>)
}
