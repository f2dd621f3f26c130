/** Optional values: a JavaScript `null`/`undefined` slot becomes `None`. */
module Wrappers {

  datatype Option<+T> = None | Some(value: T) {

    /** The value when present, the default otherwise (the `x || d` idiom). */
    function GetOr(default: T): (r: T)
      ensures Some? ==> r == value
      ensures None? ==> r == default
    {
      match this
      case Some(v) => v
      case None => default
    }
  }
}
