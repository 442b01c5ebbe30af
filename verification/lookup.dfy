/** The linear search every enumeration's parseHex runs over its values(). */
module Lookup {
  import opened Wrappers

  /** The first of `values` whose code is `target`, or None when no value has that code. */
  function FirstWithCode<T>(values: seq<T>, code: T -> int, target: int): (r: Option<T>)
    ensures r.Some? ==> r.value in values && code(r.value) == target
    ensures r.None? <==> forall i :: 0 <= i < |values| ==> code(values[i]) != target
  {
    if |values| == 0 then None
    else if code(values[0]) == target then Some(values[0])
    else
      var r := FirstWithCode(values[1..], code, target);
      assert forall i :: 1 <= i < |values| ==> values[i] == values[1..][i - 1];
      r
  }

  /** When no other value shares v's code, the search finds v. */
  lemma {:induction false} FirstWithCodeFinds<T>(values: seq<T>, code: T -> int, v: T)
    requires v in values
    requires forall i :: 0 <= i < |values| && code(values[i]) == code(v) ==> values[i] == v
    ensures FirstWithCode(values, code, code(v)) == Some(v)
  {
    if values[0] != v {
      assert v in values[1..];
      assert forall i :: 1 <= i < |values| ==> values[i] == values[1..][i - 1];
      FirstWithCodeFinds(values[1..], code, v);
    }
  }
}
