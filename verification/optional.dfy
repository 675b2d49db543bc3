/** Ruby's `nil` next to a value: `None` is `nil`, `Some(v)` is `v`. */
module Optional {

  datatype Option<+T> = None | Some(value: T) {

    /** The value, or `default` when this is `nil` (Ruby's `x || default`). */
    function GetOr(default: T): T {
      match this
      case Some(v) => v
      case None => default
    }
  }
}
