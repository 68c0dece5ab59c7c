/** An optional value, used for the caller arguments the widget may omit. */
module Wrappers {

  /** An argument the caller may leave out (`undefined` in the widget's props). */
  datatype Option<+T> = None | Some(value: T) {

    /** The carried value, or `default` when the argument was left out. */
    function GetOr(default: T): (r: T)
      ensures Some? ==> r == value
      ensures None? ==> r == default
    {
      match this
      case Some(v) => v
      case None => default
    }
  }
}
