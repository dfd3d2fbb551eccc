/** Small shared value wrappers. */
module Wrappers {

  /** A value that may be absent: JavaScript's optional property or `undefined`. */
  datatype Option<+T> = None | Some(value: T) {

    /** The wrapped value, or `default` when absent. */
    function GetOr(default: T): T {
      match this
      case Some(v) => v
      case None => default
    }
  }
}
