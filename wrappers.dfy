/** The optional value used for lookups that may be absent or may fail:
    a missing localStorage entry, a storage or media-query exception,
    a declaration block that does not exist. */
module Wrappers {

  datatype Option<+T> = None | Some(value: T) {

    /** The value, or `default` when there is none. */
    function GetOr(default: T): T {
      match this
      case Some(v) => v
      case None => default
    }
  }
}
