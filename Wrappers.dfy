/** The optional and fallible values that the model uses in place of
    JavaScript's `undefined` and of thrown errors. */
module Wrappers {

  /** A value that may be absent (`undefined` in the source). */
  datatype Option<+T> = None | Some(value: T) {

    /** The value, or `default` when it is absent. */
    function GetOr(default: T): T {
      match this
      case Some(v) => v
      case None => default
    }
  }

  /** The outcome of a call that can fail (a rejected promise in the source). */
  datatype Result<+R, +E> = Success(value: R) | Failure(error: E)
}
