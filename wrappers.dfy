/** Optional values: the model's stand-in for C#'s nullable references
    (`string?`) and for "not found" results of linear scans. */
module Wrappers {

  datatype Option<+T> = None | Some(value: T) {

    /** The value if present, otherwise `fallback` (C#'s `??` operator). */
    function GetOr(fallback: T): T {
      match this
      case Some(v) => v
      case None => fallback
    }
  }
}
