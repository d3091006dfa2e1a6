/** The optional value used wherever the source returns a value or None. */
module Wrappers {

  datatype Option<+T> = None | Some(value: T) {

    /** The held value, or `default` for None (`x if x is not None else default`). */
    function GetOr(default: T): T {
      match this
      case Some(v) => v
      case None => default
    }
  }
}
