/** Option and Result, the two failure-carrying datatypes the model uses in
    place of `undefined` and thrown exceptions. */
module Wrappers {

  /** `None` plays the part of a missing (undefined) value. */
  datatype Option<+T> = None | Some(value: T) {

    /** The value, or `default` when there is none (the `??` operator). */
    function GetOr(default: T): T {
      match this
      case Some(v) => v
      case None => default
    }
  }

  /** `Failure` plays the part of an exception thrown to the caller. */
  datatype Result<+R, +E> = Success(value: R) | Failure(error: E)
}
