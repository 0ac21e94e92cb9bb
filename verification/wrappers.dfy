/** Failure-carrying datatypes shared by every module of the model. */
module Wrappers {

  /** An optional value; also stands for JavaScript's `null`, `undefined` and `NaN`
      wherever the source lets one of those flow through a computation. */
  datatype Option<+T> = None | Some(value: T) {

    /** The value, or `default` when there is none. */
    function GetOr(default: T): T {
      match this
      case Some(v) => v
      case None => default
    }
  }

  /** A value or the error the source would have thrown instead. */
  datatype Result<+R, +E> = Success(value: R) | Failure(error: E) {

    /** Forgets the error. */
    function ToOption(): Option<R> {
      match this
      case Success(v) => Some(v)
      case Failure(_) => None
    }
  }
}
