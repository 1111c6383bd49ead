/** Optional values and fallible results, standing in for TypeScript's `T | null`
    and for a promise that either resolves or rejects. */
module Wrappers {

  datatype Option<+T> = None | Some(value: T) {
    /** The `??` operator: the carried value, or `default` when there is none. */
    function GetOr(default: T): T {
      match this
      case Some(v) => v
      case None => default
    }
  }

  datatype Result<+T, +E> = Ok(value: T) | Err(error: E)
}
