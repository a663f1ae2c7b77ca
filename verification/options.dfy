/** Kotlin's nullable types (`T?`) as an explicit optional value. */
module Options {

  /** `None` stands for Kotlin's `null`; `Some(v)` for a present value. */
  datatype Option<+T> = None | Some(value: T) {

    /** Kotlin's elvis operator `x ?: default`. */
    function GetOr(default: T): T {
      match this
      case Some(v) => v
      case None => default
    }
  }
}
