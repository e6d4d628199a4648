/** Optional values, standing in for Kotlin's nullable types (`String?`). */
module Wrappers {

  datatype Option<+T> = None | Some(value: T) {

    /** Returns the carried value, or `default` when there is none (Kotlin's `?:`). */
    function GetOr(default: T): T
    {
      match this
      case Some(v) => v
      case None => default
    }
  }
}
