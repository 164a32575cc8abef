/** Option, used for JavaScript values that may be absent (`undefined`, `null`, `NaN`). */
module Wrappers {

  datatype Option<+T> = None | Some(value: T) {

    /** Returns the value held in Some, or `default` when None (JavaScript's `x || default`
        when only absence is falsy). */
    function GetOr(default: T): T {
      match this
      case Some(v) => v
      case None => default
    }
  }
}
