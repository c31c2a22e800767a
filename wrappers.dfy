/** Optional values: a document field that may be unset, or a lookup that may find nothing. */
module Wrappers {

  datatype Option<T> = None | Some(value: T) {

    /** The value, or `default` when unset (JavaScript's `x || default` on a truthy value). */
    function GetOr(default: T): T {
      match this
      case Some(v) => v
      case None => default
    }
  }
}
