/** Optional values, for JSON fields that may be missing. */
module Wrappers {

  /** `None` is a field PHP's `isset` rejects: an absent key or a JSON null. */
  datatype Option<T> = None | Some(value: T) {

    /** The field's value, or `fallback` when it is not set (PHP's `isset($x) ? $x : fallback`). */
    function ValueOr(fallback: T): T {
      if Some? then value else fallback
    }
  }
}
