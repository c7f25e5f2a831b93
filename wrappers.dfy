/** Nullable values of the Kotlin source (`T?`) are modelled as `Option<T>`. */
module Wrappers {

  datatype Option<+T> = None | Some(value: T) {

    /** Kotlin's `?: default` / `orEmpty()`: the value, or the default when null. */
    function GetOr(default: T): T {
      match this
      case Some(v) => v
      case None => default
    }
  }
}
