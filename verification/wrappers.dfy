/** `Option`, the model's stand-in for a Java `null`, shared by the other modules. */
module Wrappers {

  /** `None` is a Java `null` (or an absent value); `Some` carries the value. */
  datatype Option<+T> = None | Some(value: T) {

    /** Returns the value in Some, or `default` for None. */
    function GetOr(default: T): (r: T)
      ensures Some? ==> r == value
      ensures None? ==> r == default
    {
      match this
      case Some(v) => v
      case None => default
    }
  }
}
