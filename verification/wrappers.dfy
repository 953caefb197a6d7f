/** The optional value used wherever the backend returns `T | undefined`
    or `T | null`, and for request fields a client may leave unset. */
module Wrappers {

  datatype Option<+T> = None | Some(value: T) {

    /** The value, or `default` when there is none. */
    function GetOr(default: T): T {
      match this
      case Some(v) => v
      case None => default
    }
  }
}
