/** Lists in general. */
module Lists {

  /** The position of the first element that passes, or the number of elements. */
  function FirstIndex<T>(xs: seq<T>, passes: T -> bool): (i: nat)
    ensures i <= |xs| && (i < |xs| ==> passes(xs[i]))
    ensures forall k :: 0 <= k < i ==> !passes(xs[k])
  {
    if xs == [] || passes(xs[0]) then 0
    else
      var i := FirstIndex(xs[1..], passes);
      assert forall k :: 0 < k < i + 1 ==> xs[k] == xs[1..][k - 1];
      i + 1
  }

  function Map<A, B>(f: A -> B, xs: seq<A>): (ys: seq<B>)
    ensures |ys| == |xs| && forall i :: 0 <= i < |xs| ==> ys[i] == f(xs[i])
  {
    seq(|xs|, i requires 0 <= i < |xs| => f(xs[i]))
  }
}
