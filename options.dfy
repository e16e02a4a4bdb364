/** An optional value: the model's stand-in for Swift optionals and for the
    "optional delegate method not implemented" case. */
module Options {
  datatype Option<T> = None | Some(value: T)
  {
    /** The value when present, otherwise the given fallback. */
    function GetOr(fallback: T): (r: T)
      ensures Some? ==> r == value
      ensures None? ==> r == fallback
    {
      if Some? then value else fallback
    }
  }
}
