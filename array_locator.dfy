/** `array.findIndex((item) => item?._id === id)`: finding an array element by
    its `_id`. */
module ArrayLocator {
  import opened Json

  /** The position of the first element whose `_id` is strictly equal to the
      string id, or -1 when there is none. Scalars, arrays and objects without
      that `_id` never match; the empty id matches an element whose `_id` is
      the empty string like any other. */
  function FindById(elems: seq<Node>, id: string): (r: int)
    ensures -1 <= r < |elems|
    ensures r == -1 <==> forall j :: 0 <= j < |elems| ==> !HasId(elems[j], id)
    ensures r >= 0 ==> HasId(elems[r], id) && elems[r].Obj?
    ensures r >= 0 ==> forall j :: 0 <= j < r ==> !HasId(elems[j], id)
  {
    if |elems| == 0 then -1
    else if HasId(elems[0], id) then 0
    else
      var r := FindById(elems[1..], id);
      if r == -1 then -1 else r + 1
  }

  /** Appending an element that does not match leaves the answer unchanged,
      and appending one that matches is found exactly when nothing before it
      matches. */
  lemma {:induction false} FindByIdAppend(elems: seq<Node>, x: Node, id: string)
    ensures !HasId(x, id) ==> FindById(elems + [x], id) == FindById(elems, id)
    ensures HasId(x, id) && FindById(elems, id) == -1 ==> FindById(elems + [x], id) == |elems|
  {
    if elems != [] {
      assert (elems + [x])[1..] == elems[1..] + [x];
      FindByIdAppend(elems[1..], x, id);
    } else {
      assert elems + [x] == [x];
    }
  }
}
