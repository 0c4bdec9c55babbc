/** Optional values: a spreadsheet cell that may be absent, a scan state not yet set. */
module Wrappers {

  datatype Option<+T> = None | Some(value: T)

  /** The list of the values held: empty for None, one element for Some. */
  function ToSeq<T>(o: Option<T>): (s: seq<T>)
    ensures |s| <= 1
    ensures o.None? ==> s == []
    ensures o.Some? ==> s == [o.value]
  {
    match o
    case None => []
    case Some(v) => [v]
  }
}
