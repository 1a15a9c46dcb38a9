/** Option, used for values that may be absent (a missing JSON key, a failed lookup). */
module Wrappers {
  datatype Option<+T> = None | Some(value: T) {
    /** The encapsulated value, or `default` when there is none. */
    function GetOr(default: T): (v: T) {
      match this
      case Some(v) => v
      case None => default
    }
  }
}
