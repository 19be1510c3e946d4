/** Optional values, standing in for the source's nullable (`T?`) fields and
    for lookups that may find nothing. */
module Wrappers {

  datatype Option<+T> = None | Some(value: T) {

    /** The wrapped value, or `default` when there is none (C#'s `??`). */
    function GetOr(default: T): T {
      match this
      case Some(v) => v
      case None => default
    }
  }
}
