/** An optional value, used for props the page may leave undefined. */
module Optional {

  datatype Option<+T> = None | Some(value: T) {

    /** The value carried by Some, or `default` for None. */
    function GetOr(default: T): T {
      match this
      case Some(v) => v
      case None => default
    }
  }
}
