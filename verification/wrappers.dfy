/** The optional value used wherever the Kotlin source returns a nullable type. */
module Wrappers {

  datatype Option<+T> = None | Some(value: T) {

    /** Kotlin's `?: default` (and `orEmpty()` for strings). */
    function GetOr(default: T): T {
      match this
      case Some(v) => v
      case None => default
    }
  }
}
