/** The optional-value datatype used for JSON fields that may be absent and
    for the statistics that are `None` when a region has no records. */
module Wrappers {

  datatype Option<+T> = None | Some(value: T) {

    /** The wrapped value, or `default` when there is none. */
    function GetOr(default: T): T {
      match this
      case Some(v) => v
      case None => default
    }
  }
}
