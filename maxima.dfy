/** The largest of a sequence of naturals, as `Iterator::max` finds it. */
module Maxima {
  /** The largest of `ks`, and 0 when there is none. */
  function Largest(ks: seq<nat>): (r: nat)
    ensures forall j :: 0 <= j < |ks| ==> ks[j] <= r
    decreases |ks|
  {
    if ks == [] then 0
    else
      var init := ks[..|ks| - 1];
      var m := Largest(init);
      assert forall j :: 0 <= j < |ks| - 1 ==> ks[j] == init[j];
      if m < ks[|ks| - 1] then ks[|ks| - 1] else m
  }

  /** The largest element of a non-empty sequence is one of its elements. */
  lemma {:induction false} LargestIn(ks: seq<nat>)
    requires ks != []
    ensures Largest(ks) in ks
    decreases |ks|
  {
    var init := ks[..|ks| - 1];
    if init != [] {
      LargestIn(init);
      assert Largest(init) in init;
      assert init <= ks;
    }
  }

  /** Appending `v` raises the largest element to `v` or leaves it. */
  lemma LargestAppend(ks: seq<nat>, v: nat)
    ensures Largest(ks + [v]) == if Largest(ks) < v then v else Largest(ks)
  {
    assert (ks + [v])[..|ks|] == ks;
  }
}
