/** A value that may be absent: the model of a TypeScript `T | null` or an optional field. */
module Wrappers {
  datatype Option<+T> = None | Some(value: T) {
    /** The value, or `default` when absent: the `??` operator. */
    function GetOr(default: T): (r: T)
      ensures None? ==> r == default
      ensures Some? ==> r == value
    {
      match this
      case Some(v) => v
      case None => default
    }
  }
}
