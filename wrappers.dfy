/** Small generic helpers shared by the schedule model. */
module Wrappers {

  /** An optional value: JavaScript's `undefined` / "not found". */
  datatype Option<+T> = None | Some(value: T)

  /**
   * Position of the first occurrence of `x` in `s`, or None:
   * `Array.prototype.indexOf`, `findIndex` and `find` over a key.
   */
  function IndexOf<T(==)>(s: seq<T>, x: T): (r: Option<nat>)
    ensures r.Some? ==> r.value < |s| && s[r.value] == x
    ensures r.Some? ==> forall j :: 0 <= j < r.value ==> s[j] != x
    ensures r.None? <==> x !in s
  {
    if |s| == 0 then None
    else if s[0] == x then Some(0)
    else match IndexOf(s[1..], x)
      case None => None
      case Some(k) => Some(k + 1)
  }
}
