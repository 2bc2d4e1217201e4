/** The "value or nothing" wrapper used wherever the program works with a
    possibly-null reference (an install path, a registry value, a stream). */
module Optional {

  datatype Option<+T> = None | Some(value: T) {

    /** The wrapped value, or `default` when there is none. */
    function GetOr(default: T): T {
      match this
      case Some(v) => v
      case None => default
    }
  }
}
