/** Optional values: an attribute of a Python object that may be missing
    (`hasattr` is false), or a version that may be unknown. */
module Optional {

  /** `None` when nothing is there, `Some(value)` when something is. */
  datatype Option<T> = None | Some(value: T) {

    /** The value when present, otherwise `fallback`: the shape of
        `obj.attr if hasattr(obj, 'attr') else fallback`. */
    function OrElse(fallback: T): (r: T)
      ensures Some? ==> r == value
      ensures None? ==> r == fallback
    {
      if Some? then value else fallback
    }

    /** The value as a sequence of zero or one elements. */
    function ToSeq(): (s: seq<T>)
      ensures |s| <= 1
      ensures |s| == 1 <==> Some?
      ensures Some? ==> s[0] == value
    {
      if Some? then [value] else []
    }
  }
}
