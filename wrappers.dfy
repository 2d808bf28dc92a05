/** The optional value used wherever the editor works with a Java reference that may be null. */
module Wrappers {
  datatype Option<T> = None | Some(value: T)

  /**
   * The index of the first true entry: the result of every loop in the
   * editor that walks a list in order and stops at the first match.
   */
  function FirstTrue(bs: seq<bool>): (r: Option<nat>)
    ensures r.None? <==> forall i :: 0 <= i < |bs| ==> !bs[i]
    ensures r.Some? ==> r.value < |bs| && bs[r.value] && forall i :: 0 <= i < r.value ==> !bs[i]
  {
    if |bs| == 0 then None
    else if bs[0] then Some(0)
    else match FirstTrue(bs[1..])
      case None => None
      case Some(i) => Some(i + 1)
  }
}
