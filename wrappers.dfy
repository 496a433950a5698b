/** Optional values stand for C#'s nullable references; Result carries a thrown exception as a value. */
module Wrappers {

  /** `None` plays the part of a null reference. */
  datatype Option<+T> = None | Some(value: T) {

    /** The `??` operator: the value, or `default` for null. */
    function GetOr(default: T): T {
      match this
      case Some(v) => v
      case None => default
    }
  }

  datatype Result<+R, +E> = Success(value: R) | Failure(error: E)
}
