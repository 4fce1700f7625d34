/** Java's nullable references: a value that may be absent. */
module Wrappers {

  datatype Option<T> = None | Some(value: T) {

    /** What the code falls back on when the reference is `null`. */
    function ValueOr(fallback: T): (v: T)
      ensures Some? ==> v == value
      ensures None? ==> v == fallback
    {
      if Some? then value else fallback
    }
  }
}
