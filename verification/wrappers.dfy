/** Option, the model's stand-in for JavaScript's `null` and for a call that throws. */
module Wrappers {

  datatype Option<T> = None | Some(value: T) {

    /** The value when there is one, `default` otherwise. */
    function GetOr(default: T): T {
      match this
      case Some(v) => v
      case None => default
    }
  }
}
