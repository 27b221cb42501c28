/** The optional value used wherever the source has `null` or an absent field. */
module Wrappers {

  datatype Option<+T> = None | Some(value: T) {

    /** The wrapped value, or `default` when there is none */
    function GetOr(default: T): T {
      match this
      case Some(v) => v
      case None => default
    }
  }
}
