/** The stand-in for JavaScript's `null`, shared by the other modules. */
module Wrappers {

  /** A value that may be absent: JavaScript's `null` for a cancelled prompt
      or a missing storage key. */
  datatype Option<+T> = None | Some(value: T) {

    /** The wrapped value, or `default` when absent (JavaScript's `x || default`
        for a value that is either null or present). */
    function GetOr(default: T): (r: T)
      ensures Some? ==> r == value
      ensures None? ==> r == default
    {
      match this
      case Some(v) => v
      case None => default
    }
  }
}
