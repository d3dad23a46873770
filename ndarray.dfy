/**
 * The axis permutation and axis sort of src/utils/ndarray.rs. An array taken along the
 * permuted axis is a two-dimensional array here: the first dimension is the position on
 * that axis, the second runs over the elements of one slice (an `axis_iter` lane).
 */
module NdArrays {
  import opened HigherOrder

  /** `std::cmp::Ordering`. */
  datatype Ordering = Less | Equal | Greater

  /** `cmp` answers the same question asked both ways consistently, as `sort_by` expects of it. */
  ghost predicate Consistent(cmp: (nat, nat) -> Ordering)
  {
    forall a: nat, b: nat :: cmp(a, b) == Greater <==> cmp(b, a) == Less
  }

  /** No two neighbours compare as `Greater`. */
  predicate AdjacentSorted(s: seq<nat>, cmp: (nat, nat) -> Ordering)
  {
    forall k :: 0 < k < |s| ==> cmp(s[k - 1], s[k]) != Greater
  }

  /** `0..n`. */
  function Range(n: nat): (r: seq<nat>)
    ensures |r| == n && forall i :: 0 <= i < n ==> r[i] == i
  {
    seq(n, i => i)
  }

  /** Putting one element back between two sorted runs that fit it gives a sorted run. */
  lemma JoinSorted(s: seq<nat>, j: nat, cmp: (nat, nat) -> Ordering)
    requires j < |s| && AdjacentSorted(s[..j] + s[j + 1..], cmp)
    requires j > 0 ==> cmp(s[j - 1], s[j]) != Greater
    requires j + 1 < |s| ==> cmp(s[j], s[j + 1]) != Greater
    ensures AdjacentSorted(s, cmp)
  {
    var rest := s[..j] + s[j + 1..];
    forall k | 0 < k < |s|
      ensures cmp(s[k - 1], s[k]) != Greater
    {
      if k < j {
        assert rest[k - 1] == s[k - 1] && rest[k] == s[k];
      } else if k > j + 1 {
        assert rest[k - 2] == s[k - 1] && rest[k - 1] == s[k];
      }
    }
  }

  /** Exchanging two neighbours leaves the run around the left one's new place as it was. */
  lemma SwapKeepsRest(s: seq<nat>, t: seq<nat>, j: nat, e: nat)
    requires 0 < j < e <= |s| && t == s[j - 1 := s[j]][j := s[j - 1]]
    ensures t[..j - 1] + t[j..e] == s[..j] + s[j + 1..e]
  {
    assert t[..j - 1] == s[..j - 1];
    assert t[j..e] == [s[j - 1]] + s[j + 1..e];
    assert s[..j] == s[..j - 1] + [s[j - 1]];
  }

  /** One exchange of the insertion keeps the rest of the run and puts the pair in order. */
  lemma InsertStep(s: seq<nat>, t: seq<nat>, i: nat, j: nat, sorted: seq<nat>, cmp: (nat, nat) -> Ordering)
    requires 0 < j <= i < |s| && t == s[j - 1 := s[j]][j := s[j - 1]]
    requires s[..j] + s[j + 1..i + 1] == sorted
    requires Consistent(cmp) && cmp(s[j - 1], s[j]) == Greater
    ensures t[..j - 1] + t[j..i + 1] == sorted
    ensures cmp(t[j - 1], t[j]) != Greater
  {
    SwapKeepsRest(s, t, j, i + 1);
  }

  method Swap(a: array<nat>, i: nat, j: nat)
    requires i < a.Length && j < a.Length
    modifies a
    ensures a[..] == old(a[..])[i := old(a[j])][j := old(a[i])]
    ensures multiset(a[..]) == multiset(old(a[..]))
  {
    a[i], a[j] := a[j], a[i];
  }

  /** One pass of insertion: move `a[i]` left past every neighbour that compares `Greater` to it. */
  method InsertLeft(a: array<nat>, i: nat, cmp: (nat, nat) -> Ordering)
    requires i < a.Length && Consistent(cmp) && AdjacentSorted(a[..i], cmp)
    modifies a
    ensures AdjacentSorted(a[..i + 1], cmp)
    ensures multiset(a[..]) == multiset(old(a[..]))
  {
    ghost var sorted := a[..i];
    var j := i;
    while j > 0 && cmp(a[j - 1], a[j]) == Greater
      invariant 0 <= j <= i
      invariant multiset(a[..]) == multiset(old(a[..]))
      invariant a[..j] + a[j + 1..i + 1] == sorted
      invariant j < i ==> cmp(a[j], a[j + 1]) != Greater
    {
      ghost var s := a[..];
      Swap(a, j - 1, j);
      InsertStep(s, a[..], i, j, sorted, cmp);
      j := j - 1;
    }
    InsertDone(a[..], i, j, sorted, cmp);
  }

  /** Where the insertion stops, the element fits between its neighbours. */
  lemma InsertDone(s: seq<nat>, i: nat, j: nat, sorted: seq<nat>, cmp: (nat, nat) -> Ordering)
    requires j <= i < |s| && s[..j] + s[j + 1..i + 1] == sorted && AdjacentSorted(sorted, cmp)
    requires j > 0 ==> cmp(s[j - 1], s[j]) != Greater
    requires j < i ==> cmp(s[j], s[j + 1]) != Greater
    ensures AdjacentSorted(s[..i + 1], cmp)
  {
    var run := s[..i + 1];
    assert run[..j] == s[..j] && run[j + 1..] == s[j + 1..i + 1];
    JoinSorted(run, j, cmp);
  }

  /** `Permutation`: the indices an axis is to be rearranged by. */
  class Permutation {
    var indices: array<nat>

    /** `Permutation::new`. */
    constructor New(xs: seq<nat>)
      ensures fresh(indices) && indices[..] == xs
    {
      indices := new nat[|xs|](i requires 0 <= i < |xs| => xs[i]);
    }

    /** `Permutation::from_iter(0..n)`. */
    constructor FromRange(n: nat)
      ensures fresh(indices) && indices[..] == Range(n)
    {
      indices := new nat[n](i => i);
    }

    /** `sort_by`: rearranges the indices until no neighbours compare as `Greater`. */
    method SortBy(cmp: (nat, nat) -> Ordering)
      requires Consistent(cmp)
      modifies indices
      ensures multiset(indices[..]) == multiset(old(indices[..]))
      ensures AdjacentSorted(indices[..], cmp)
    {
      var i := 0;
      while i < indices.Length
        invariant 0 <= i <= indices.Length
        invariant AdjacentSorted(indices[..i], cmp)
        invariant multiset(indices[..]) == multiset(old(indices[..]))
      {
        InsertLeft(indices, i, cmp);
        i := i + 1;
      }
      assert indices[..i] == indices[..];
    }
  }

  /** The slices of an array along its first dimension. */
  function Slices<A>(a: array2<A>): (r: seq<seq<A>>)
    reads a
    ensures |r| == a.Length0
    ensures forall i :: 0 <= i < a.Length0 ==> |r[i]| == a.Length1
  {
    seq(a.Length0, i requires 0 <= i < a.Length0 reads a => seq(a.Length1, j requires 0 <= j < a.Length1 reads a => a[i, j]))
  }

  lemma PickAppend<T>(xs: seq<T>, p: seq<nat>, q: seq<nat>)
    requires forall k :: 0 <= k < |p| ==> p[k] < |xs|
    requires forall k :: 0 <= k < |q| ==> q[k] < |xs|
    ensures Select(xs, p + q) == Select(xs, p) + Select(xs, q)
  {
  }

  /** Taking one index out of `q` takes its slice out of what `q` picks. */
  lemma PickRemove<T>(xs: seq<T>, q: seq<nat>, at: nat, others: seq<nat>)
    requires forall k :: 0 <= k < |q| ==> q[k] < |xs|
    requires at < |q| && others == q[..at] + q[at + 1..]
    ensures forall k :: 0 <= k < |others| ==> others[k] < |xs|
    ensures multiset(q) == multiset(others) + multiset{q[at]}
    ensures multiset(Select(xs, q)) == multiset(Select(xs, others)) + multiset{xs[q[at]]}
  {
    var before, one, after := q[..at], [q[at]], q[at + 1..];
    forall k | 0 <= k < |others|
      ensures others[k] < |xs|
    {
      if k < at {
        assert others[k] == q[k];
      } else {
        assert others[k] == q[k + 1];
      }
    }
    assert q == (before + one) + after;
    PickAppend(xs, before + one, after);
    PickAppend(xs, before, one);
    PickAppend(xs, before, after);
    var pb, po, pa := Select(xs, before), Select(xs, one), Select(xs, after);
    assert po == [xs[q[at]]];
    assert Select(xs, q) == (pb + po) + pa;
    assert multiset(Select(xs, q)) == multiset(pb) + multiset(po) + multiset(pa);
    assert multiset(Select(xs, others)) == multiset(pb) + multiset(pa);
    assert multiset(q) == multiset(before) + multiset(one) + multiset(after);
  }

  lemma MultisetCancel(a: multiset<nat>, b: multiset<nat>, x: nat)
    requires a + multiset{x} == b + multiset{x}
    ensures a == b
  {
    assert a == (a + multiset{x}) - multiset{x};
    assert b == (b + multiset{x}) - multiset{x};
  }

  /** Rearranging the indices rearranges what they pick. */
  lemma {:induction false} PickPermuted<T>(xs: seq<T>, p: seq<nat>, q: seq<nat>)
    requires forall k :: 0 <= k < |p| ==> p[k] < |xs|
    requires forall k :: 0 <= k < |q| ==> q[k] < |xs|
    requires multiset(p) == multiset(q)
    ensures multiset(Select(xs, p)) == multiset(Select(xs, q))
    decreases |p|
  {
    if p != [] {
      var x := p[0];
      assert x in multiset(q);
      var at :| 0 <= at < |q| && q[at] == x;
      var others := q[..at] + q[at + 1..];
      assert p[..0] + p[1..] == p[1..];
      PickRemove(xs, p, 0, p[1..]);
      PickRemove(xs, q, at, others);
      assert multiset(p) == multiset(p[1..]) + multiset{x};
      assert multiset(q) == multiset(others) + multiset{x};
      MultisetCancel(multiset(p[1..]), multiset(others), x);
      PickPermuted(xs, p[1..], others);
    }
  }

  /** A permutation of `0..n` picks every slice exactly once. */
  lemma PermutationKeepsSlices<T>(xs: seq<T>, p: seq<nat>)
    requires multiset(p) == multiset(Range(|xs|))
    ensures forall k :: 0 <= k < |p| ==> p[k] < |xs|
    ensures multiset(Select(xs, p)) == multiset(xs)
  {
    forall k | 0 <= k < |p|
      ensures p[k] < |xs|
    {
      assert p[k] in multiset(Range(|xs|));
    }
    PickPermuted(xs, p, Range(|xs|));
    assert Select(xs, Range(|xs|)) == xs;
  }

  /**
   * `permute_axis`: slice `i` of the result is slice `indices[i]` of the source. An
   * empty array is returned as it is; otherwise every element is moved once into a new
   * array, and `moved` counts them as the `debug_assert_eq!` does.
   */
  method PermuteAxis<A>(src: array2<A>, indices: seq<nat>) returns (result: array2<A>, moved: nat)
    requires |indices| == src.Length0
    requires forall k :: 0 <= k < |indices| ==> indices[k] < src.Length0
    ensures result.Length0 == src.Length0 && result.Length1 == src.Length1
    ensures src.Length0 == 0 || src.Length1 == 0 ==> result == src
    ensures src.Length0 > 0 && src.Length1 > 0 ==> fresh(result) && moved == src.Length0 * src.Length1
    ensures forall i, j :: 0 <= i < result.Length0 && 0 <= j < result.Length1 ==> result[i, j] == src[indices[i], j]
  {
    if src.Length0 == 0 || src.Length1 == 0 {
      return src, 0;
    }
    var m, n := src.Length0, src.Length1;
    result := new A[m, n]((i, j) reads src => src[0, 0]);
    moved := 0;
    var i := 0;
    while i < m
      invariant 0 <= i <= m && moved == i * n
      invariant forall i', j :: 0 <= i' < i && 0 <= j < n ==> result[i', j] == src[indices[i'], j]
    {
      var j := 0;
      while j < n
        invariant 0 <= j <= n && moved == i * n + j
        invariant forall i', j' :: 0 <= i' < i && 0 <= j' < n ==> result[i', j'] == src[indices[i'], j']
        invariant forall j' :: 0 <= j' < j ==> result[i, j'] == src[indices[i], j']
      {
        result[i, j] := src[indices[i], j];
        moved := moved + 1;
        j := j + 1;
      }
      i := i + 1;
    }
  }

  /**
   * `sort_axis_by`: sort the indices `0..n` of the axis with `cmp`, then permute the
   * axis by them. The ghost `indices` is the sorted permutation.
   */
  method SortAxisBy<A>(src: array2<A>, cmp: (nat, nat) -> Ordering) returns (result: array2<A>, ghost indices: seq<nat>)
    requires Consistent(cmp)
    ensures multiset(indices) == multiset(Range(src.Length0)) && AdjacentSorted(indices, cmp)
    ensures forall k :: 0 <= k < |indices| ==> indices[k] < src.Length0
    ensures Slices(result) == Select(Slices(src), indices)
    ensures multiset(Slices(result)) == multiset(Slices(src))
  {
    var permutation := new Permutation.FromRange(src.Length0);
    permutation.SortBy(cmp);
    indices := permutation.indices[..];
    PermutationKeepsSlices(Slices(src), indices);
    var moved;
    result, moved := PermuteAxis(src, permutation.indices[..]);
    forall i | 0 <= i < result.Length0
      ensures Slices(result)[i] == Slices(src)[indices[i]]
    {
      assert Slices(result)[i] == seq(src.Length1, j requires 0 <= j < src.Length1 reads src => src[indices[i], j]);
    }
    assert Slices(result) == Select(Slices(src), indices);
  }
}
