/** Optional values: the model's stand-in for C# `null` references and
    `Nullable<int>` (`int?`) values. */
module Wrappers {

  datatype Option<+T> = None | Some(value: T) {

    /** The C# null-coalescing operator `this ?? default`. */
    function GetOr(default: T): (r: T)
      ensures Some? ==> r == value
      ensures None? ==> r == default
    {
      match this
      case Some(v) => v
      case None => default
    }
  }
}
