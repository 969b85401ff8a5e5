/** Optional values, standing for the nullable pointers, `std::optional` results and
    `npos` positions of the linter's C++ source. */
module Wrappers {

  datatype Option<+T> = None | Some(value: T) {

    /** Returns the value held in Some, or the given default for None. */
    function GetOr(default: T): T {
      match this
      case Some(v) => v
      case None => default
    }
  }
}
