/** Optional values: JavaScript's `undefined` / absent field, and the skip-or-emit
    outcome of a per-entry scan step. */
module Wrappers {

  datatype Option<+T> = None | Some(value: T) {

    /** The encapsulated value, or `default` when absent (JavaScript's `x ?? default`). */
    function GetOr(default: T): T {
      match this
      case Some(v) => v
      case None => default
    }
  }

  /** The zero- or one-element sequence holding an optional value; pushing it onto a
      list is the "push if emitted" step of a scan loop. */
  function ToSeq<T>(o: Option<T>): (s: seq<T>)
    ensures |s| <= 1
    ensures o.Some? <==> |s| == 1
    ensures o.Some? ==> s[0] == o.value
  {
    match o
    case Some(v) => [v]
    case None => []
  }
}
