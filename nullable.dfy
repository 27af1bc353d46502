/** C#'s nullable value types (`DateTime?`) and the "no result" case of `int.TryParse`. */
module Nullable {

  datatype Option<+T> = None | Some(value: T) {

    /** The held value, or `default` when there is none (C#'s `??`). */
    function GetOr(default: T): T {
      match this
      case Some(v) => v
      case None => default
    }
  }
}
