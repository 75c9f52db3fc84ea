/** A value that may be absent: the model's stand-in for TypeScript's `T | null`
    and for an optional-chained read that yields `undefined`. */
module Optional {

  datatype Option<+T> = None | Some(value: T) {

    /** The wrapped value, or `default` when absent (the `??` operator). */
    function GetOr(default: T): T {
      match this
      case Some(v) => v
      case None => default
    }
  }
}
