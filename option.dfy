/** An optional value: used for a lookup that may fail and a JSON field that may be absent. */
module Opt {

  datatype Option<+T> = None | Some(value: T) {

    /** The value, or `default` when there is none. */
    function GetOr(default: T): T {
      match this
      case Some(v) => v
      case None => default
    }
  }
}
