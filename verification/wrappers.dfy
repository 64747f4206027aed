/** The optional value used for every `T | null` and `T | undefined` of the dashboard. */
module Wrappers {

  datatype Option<+T> = None | Some(value: T) {

    /** The value if present, the given default otherwise (JavaScript's `??`). */
    function GetOr(default: T): T {
      match this
      case Some(v) => v
      case None => default
    }
  }
}
