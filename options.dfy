/** Kotlin's nullable types (`T?`) as an explicit Option. */
module Options {

  datatype Option<+T> = None | Some(value: T) {

    /** The elvis operator `x ?: default`. */
    function GetOr(default: T): T
    {
      match this
      case Some(v) => v
      case None => default
    }
  }
}
