/** Optional values: the model's stand-in for a field or argument that may be undefined or null. */
module Wrappers {

  datatype Option<+T> = None | Some(value: T) {

    /** The value, or `default` when absent (the source's `x ?? default` / `x || default` on objects). */
    function GetOr(default: T): T {
      match this
      case Some(v) => v
      case None => default
    }
  }
}
