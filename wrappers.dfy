/** An optional value, used for optional query parameters, network replies and lookups. */
module Wrappers {

  /** A value that may be absent: a missing query parameter, a failed request, a lookup miss. */
  datatype Option<+T> = None | Some(value: T) {

    /** The wrapped value, or `default` when there is none. */
    function GetOr(default: T): T {
      match this
      case Some(v) => v
      case None => default
    }
  }
}
