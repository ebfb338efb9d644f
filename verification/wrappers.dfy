/** Optional values: a C# reference that may be null is an `Option`, and an
    operation that can raise is one that returns `None` on the faulting path. */
module Wrappers {

  datatype Option<+T> = None | Some(value: T) {

    /** The value, or `default` when there is none */
    function GetOr(default: T): T {
      match this
      case Some(v) => v
      case None => default
    }
  }

  /** A value, or an error message describing why it could not be produced */
  datatype Result<+R> = Success(value: R) | Failure(error: string)
}
