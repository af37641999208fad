/** Optional values: the model's stand-in for `null` / `undefined`. */
module Opt {
  datatype Option<+T> = None | Some(value: T) {
    function GetOr(default: T): T {
      match this
      case Some(v) => v
      case None => default
    }
  }
}
