/** A value that may be absent: the model's stand-in for JavaScript's `null`. */
module Optional {

  datatype Option<T> = None | Some(value: T) {

    /** The value when present, `default` otherwise (JavaScript's `x || default`). */
    function GetOr(default: T): T {
      match this
      case Some(v) => v
      case None => default
    }
  }
}
