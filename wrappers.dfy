/** Optional values: a dictionary key that may be absent, a parse that may fail. */
module Wrappers {

  datatype Option<+T> = None | Some(value: T) {

    /** dict.get(key, default): the value when present, the default otherwise */
    function GetOr(default: T): T {
      match this
      case Some(v) => v
      case None => default
    }
  }

  function Min(a: int, b: int): int { if a <= b then a else b }

  function Max(a: int, b: int): int { if a <= b then b else a }
}
