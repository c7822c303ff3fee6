/** The optional value used where the Python code returns a value or None. */
module Wrappers {

  datatype Option<+T> = None | Some(value: T) {

    /** The value held, or `default` for None. */
    function GetOr(default: T): T {
      match this
      case Some(v) => v
      case None => default
    }
  }
}
