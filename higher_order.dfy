/**
 * The stateful predicates of src/utils/higher_order_functions.rs. Each returned closure
 * owns a counter `index` that it updates on every call, so each is a class whose `Call`
 * is one call of the closure. The wrapped `f` is a pure function here; the ghost
 * `results` records the answers given so far.
 */
module HigherOrder {

  /** Number of `true` answers in `results`. */
  function CountTrue(results: seq<bool>): (r: nat)
    ensures r <= |results|
    decreases |results|
  {
    if results == [] then 0
    else CountTrue(results[..|results| - 1]) + (if results[|results| - 1] then 1 else 0)
  }

  /** `temp(f)`: asks `f` for the current count, which only advances on `true`. */
  class Temp<T> {
    const f: nat -> bool
    var index: nat
    ghost var results: seq<bool>

    /** The counter is the number of `true` answers so far. */
    ghost predicate Valid()
      reads this
    {
      index == CountTrue(results)
    }

    constructor(f: nat -> bool)
      ensures this.f == f && index == 0 && results == [] && Valid()
    {
      this.f := f;
      index := 0;
      results := [];
    }

    method Call(item: T) returns (keep: bool)
      requires Valid()
      modifies this
      ensures Valid()
      ensures keep == f(old(index))
      ensures index == if keep then old(index) + 1 else old(index)
      ensures results == old(results) + [keep]
    {
      keep := f(index);
      if keep {
        index := index + 1;
      }
      results := results + [keep];
      assert results[..|results| - 1] == old(results);
    }
  }

  /** `index(f)`: asks `f` for the position of the call, whatever the item. */
  class Index<T> {
    const f: nat -> bool
    var index: nat
    ghost var results: seq<bool>

    /** The counter is the number of calls so far. */
    ghost predicate Valid()
      reads this
    {
      index == |results|
    }

    constructor(f: nat -> bool)
      ensures this.f == f && index == 0 && results == [] && Valid()
    {
      this.f := f;
      index := 0;
      results := [];
    }

    method Call(item: T) returns (keep: bool)
      requires Valid()
      modifies this
      ensures Valid()
      ensures keep == f(|old(results)|)
      ensures index == old(index) + 1
      ensures results == old(results) + [keep]
    {
      keep := f(index);
      index := index + 1;
      results := results + [keep];
    }
  }

  /** `with_index(f)`: asks `f` about the position of the call and the item. */
  class WithIndex<T> {
    const f: (nat, T) -> bool
    var index: nat
    ghost var results: seq<bool>

    /** The counter is the number of calls so far. */
    ghost predicate Valid()
      reads this
    {
      index == |results|
    }

    constructor(f: (nat, T) -> bool)
      ensures this.f == f && index == 0 && results == [] && Valid()
    {
      this.f := f;
      index := 0;
      results := [];
    }

    method Call(item: T) returns (keep: bool)
      requires Valid()
      modifies this
      ensures Valid()
      ensures keep == f(|old(results)|, item)
      ensures index == old(index) + 1
      ensures results == old(results) + [keep]
    {
      keep := f(index, item);
      index := index + 1;
      results := results + [keep];
    }
  }

  /** The positions `i` of `xs`, in increasing order, at which `f(i, xs[i])` holds. */
  function KeptPositions<T>(xs: seq<T>, f: (nat, T) -> bool): (r: seq<nat>)
    ensures forall k :: 0 <= k < |r| ==> r[k] < |xs|
    decreases |xs|
  {
    if xs == [] then []
    else
      var n := |xs| - 1;
      KeptPositions(xs[..n], f) + (if f(n, xs[n]) then [n] else [])
  }

  /** The kept positions are strictly increasing, and are exactly those where `f` holds. */
  lemma {:induction false} KeptPositionsExact<T>(xs: seq<T>, f: (nat, T) -> bool)
    ensures forall k, l :: 0 <= k < l < |KeptPositions(xs, f)| ==> KeptPositions(xs, f)[k] < KeptPositions(xs, f)[l]
    ensures forall i: nat :: i in KeptPositions(xs, f) <==> i < |xs| && f(i, xs[i])
    decreases |xs|
  {
    if xs != [] {
      var n := |xs| - 1;
      KeptPositionsExact(xs[..n], f);
      forall i | 0 <= i < n
        ensures xs[..n][i] == xs[i]
      {
      }
    }
  }

  /** The elements at the kept positions, in order: what `retain` leaves behind. */
  function Select<T>(xs: seq<T>, positions: seq<nat>): (r: seq<T>)
    requires forall k :: 0 <= k < |positions| ==> positions[k] < |xs|
    ensures |r| == |positions| && forall k :: 0 <= k < |r| ==> r[k] == xs[positions[k]]
  {
    seq(|positions|, k requires 0 <= k < |positions| => xs[positions[k]])
  }

  /**
   * `Vec::retain(with_index(f))`, as the file list of src/app/mod.rs uses it: the
   * predicate is called once per element, front to back, and the elements it accepts
   * stay, in order.
   */
  method RetainWithIndex<T>(xs: seq<T>, f: (nat, T) -> bool) returns (kept: seq<T>)
    ensures kept == Select(xs, KeptPositions(xs, f))
  {
    var retainer := new WithIndex(f);
    kept := [];
    var i := 0;
    while i < |xs|
      invariant 0 <= i <= |xs|
      invariant retainer.Valid() && retainer.index == i && retainer.f == f
      invariant kept == Select(xs[..i], KeptPositions(xs[..i], f))
    {
      var keep := retainer.Call(xs[i]);
      assert xs[..i + 1][..i] == xs[..i];
      if keep {
        kept := kept + [xs[i]];
      }
      i := i + 1;
    }
    assert xs[..i] == xs;
  }
}
