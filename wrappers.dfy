/** Optional values: JavaScript's `null`/`undefined` and Python's `None` where the source returns "nothing". */
module Wrappers {
  datatype Option<+T> = None | Some(value: T) {
    function GetOr(default: T): T
    {
      match this
      case Some(v) => v
      case None => default
    }
  }
}
