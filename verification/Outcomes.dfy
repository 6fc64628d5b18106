/** Optional values and the one failure the scanning entry points can raise. */
module Outcomes {

  datatype Option<+T> = None | Some(value: T) {
    /** The value, or `default` when there is none. */
    function GetOr(default: T): T {
      match this
      case Some(v) => v
      case None => default
    }
  }

  /** The exceptions the core throws: only a null start address. */
  datatype Exception = NullReference

  /** A value, or the exception the C# code would have thrown instead. */
  datatype Result<+T> = Success(value: T) | Failure(error: Exception)
}
