/** Optional values and outcomes shared by every module of the model. */
module Wrappers {

  /** A value that may be missing: a Python `None`, or a dictionary key that is absent. */
  datatype Option<+T> = None | Some(value: T) {

    /** The value, or `default` when there is none (`d.get(key, default)`). */
    function GetOr(default: T): T {
      match this
      case Some(v) => v
      case None => default
    }
  }

  /** Either a value or the error that was raised instead. */
  datatype Result<+T, +E> = Success(value: T) | Failure(error: E)

  /** The outcome of an operation that returns nothing: it finished, or it raised `error`. */
  datatype Outcome<+E> = Done | Fail(error: E)
}
