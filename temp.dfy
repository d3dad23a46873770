/**
 * The peak-map experiments in `utils/temp.rs`: `maximums`, which fills every missing mass
 * from 0 up to the last entry's mass with intensity 0, and the fold of the unit test, which
 * turns a sparse mass-to-intensity map into a dense vector indexed by mass.
 */
module Temp {
  import opened Wrappers
  import opened IndexMaps
  import opened Maxima

  /* ---------- `entry(k).or_default()` ---------- */

  /**
   * `IndexMap::entry(k).or_default()`: a present key keeps its entry; a missing key is
   * appended with the default intensity 0.
   */
  function WithDefault(es: Entries, k: nat): (r: Entries)
    ensures |r| == if k in Keys(es) then |es| else |es| + 1
  {
    if k in Keys(es) then es else es + [(k, 0)]
  }

  /** The old entries stay in place; what is added is the entry `(k, 0)`. */
  lemma WithDefaultExtends(es: Entries, k: nat)
    ensures es <= WithDefault(es, k)
    ensures forall i :: |es| <= i < |WithDefault(es, k)| ==> WithDefault(es, k)[i] == (k, 0)
  {
  }

  /** The key order after `or_default`: unchanged, or the new key last. */
  lemma WithDefaultKeys(es: Entries, k: nat)
    ensures Keys(WithDefault(es, k)) == if k in Keys(es) then Keys(es) else Keys(es) + [k]
  {
    if k !in Keys(es) {
      InsertNew(es, k, 0);
    }
  }

  /** A missing key reads 0 afterwards; every other lookup is unchanged. */
  lemma WithDefaultGet(es: Entries, k: nat, x: nat)
    ensures Get(WithDefault(es, k), x) == if x == k && k !in Keys(es) then Some(0) else Get(es, x)
  {
    if k !in Keys(es) {
      InsertNew(es, k, 0);
    }
  }

  lemma WithDefaultDistinct(es: Entries, k: nat)
    requires DistinctKeys(es)
    ensures DistinctKeys(WithDefault(es, k))
  {
    if k !in Keys(es) {
      InsertNew(es, k, 0);
    }
  }

  /** The map after `entry(i).or_default()` for `i` in `0..n`, in that order. */
  function FillRange(es: Entries, n: nat): Entries
    decreases n
  {
    if n == 0 then es else WithDefault(FillRange(es, n - 1), n - 1)
  }

  /** Filling keeps every entry where it was. */
  lemma {:induction false} FillRangePrefix(es: Entries, n: nat)
    ensures es <= FillRange(es, n)
    decreases n
  {
    if n > 0 {
      FillRangePrefix(es, n - 1);
      WithDefaultExtends(FillRange(es, n - 1), n - 1);
    }
  }

  /** Afterwards the keys are the old ones plus every mass below `n`. */
  lemma {:induction false} FillRangeKeys(es: Entries, n: nat, x: nat)
    ensures x in Keys(FillRange(es, n)) <==> x in Keys(es) || x < n
    decreases n
  {
    if n > 0 {
      FillRangeKeys(es, n - 1, x);
      WithDefaultKeys(FillRange(es, n - 1), n - 1);
    }
  }

  /** The appended entries all carry intensity 0. */
  lemma {:induction false} FillRangeZeros(es: Entries, n: nat)
    ensures forall i :: |es| <= i < |FillRange(es, n)| ==> FillRange(es, n)[i].1 == 0
    decreases n
  {
    if n > 0 {
      FillRangeZeros(es, n - 1);
      FillRangePrefix(es, n - 1);
      WithDefaultExtends(FillRange(es, n - 1), n - 1);
    }
  }

  lemma {:induction false} FillRangeDistinct(es: Entries, n: nat)
    requires DistinctKeys(es)
    ensures DistinctKeys(FillRange(es, n))
    decreases n
  {
    if n > 0 {
      FillRangeDistinct(es, n - 1);
      WithDefaultDistinct(FillRange(es, n - 1), n - 1);
    }
  }

  /** Filling `0..a` and then `0..b` is filling `0..max(a, b)`: the second pass skips present masses. */
  lemma {:induction false} FillRangeTwice(es: Entries, a: nat, b: nat)
    ensures FillRange(FillRange(es, a), b) == FillRange(es, if a < b then b else a)
    decreases b
  {
    if b > 0 {
      FillRangeTwice(es, a, b - 1);
      var first := FillRange(es, a);
      var again := FillRange(first, b - 1);
      assert FillRange(first, b) == WithDefault(again, b - 1);
      if b - 1 < a {
        assert again == first;
        FillRangeKeys(es, a, b - 1);
        assert WithDefault(first, b - 1) == first;
      } else {
        assert again == FillRange(es, b - 1);
      }
    }
  }

  /* ---------- the largest key, and counting distinct keys ---------- */

  predicate Distinct(ks: seq<nat>)
  {
    forall i, j :: 0 <= i < j < |ks| ==> ks[i] != ks[j]
  }

  lemma DistinctOfKeys(es: Entries)
    requires DistinctKeys(es)
    ensures Distinct(Keys(es))
  {
  }

  lemma SubsetCard(a: set<nat>, b: set<nat>)
    requires a <= b
    ensures |a| <= |b|
  {
    assert b == a + (b - a);
  }

  function Elements(ks: seq<nat>): set<nat>
  { set k | k in ks }

  lemma {:induction false} DistinctCard(ks: seq<nat>)
    requires Distinct(ks)
    ensures |Elements(ks)| == |ks|
    decreases |ks|
  {
    if ks != [] {
      var init := ks[..|ks| - 1];
      var last := ks[|ks| - 1];
      assert Distinct(init);
      DistinctCard(init);
      assert ks == init + [last];
      assert last !in init;
      assert Elements(ks) == Elements(init) + {last};
    }
  }

  /** The masses `0..n`. */
  function Below(n: nat): (r: set<nat>)
    ensures forall x: nat :: x in r <==> x < n
    ensures |r| == n
    decreases n
  {
    if n == 0 then {}
    else
      var b := Below(n - 1);
      assert n - 1 !in b;
      assert b * {n - 1} == {};
      b + {n - 1}
  }

  /** Distinct naturals cannot outnumber the masses from 0 to their maximum. */
  lemma DistinctBound(ks: seq<nat>)
    requires Distinct(ks)
    ensures |ks| <= Largest(ks) + 1
  {
    DistinctCard(ks);
    SubsetCard(Elements(ks), Below(Largest(ks) + 1));
  }

  /** `n` distinct naturals that include every mass below `n` are exactly those masses. */
  lemma DenseExact(ks: seq<nat>, n: nat)
    requires Distinct(ks) && |ks| == n
    requires forall k :: 0 <= k < n ==> k in ks
    ensures forall j :: 0 <= j < |ks| ==> ks[j] < n
  {
    DistinctCard(ks);
    forall j | 0 <= j < |ks|
      ensures ks[j] < n
    {
      SubsetCard(Below(n) + {ks[j]}, Elements(ks));
    }
  }

  /** Filling below the largest key does not change the largest key. */
  lemma {:induction false} LargestFill(es: Entries, n: nat)
    requires es != [] && n <= Largest(Keys(es)) + 1
    ensures Largest(Keys(FillRange(es, n))) == Largest(Keys(es))
    decreases n
  {
    if n > 0 {
      LargestFill(es, n - 1);
      var before := FillRange(es, n - 1);
      var ks := Keys(before);
      assert FillRange(es, n) == WithDefault(before, n - 1);
      WithDefaultKeys(before, n - 1);
      if n - 1 !in ks {
        LargestAppend(ks, n - 1);
        assert Keys(FillRange(es, n)) == ks + [n - 1];
      } else {
        assert Keys(FillRange(es, n)) == ks;
      }
    }
  }

  /* ---------- `maximums` ---------- */

  /**
   * One pass of the terminating loop: while `i` is below the length, it is also at most the
   * largest key, so the largest key stays put and the length stays ahead of `i + 1`.
   */
  lemma FillStep(start: Entries, i: nat)
    requires start != [] && DistinctKeys(start)
    requires i < |FillRange(start, i)|
    requires Largest(Keys(FillRange(start, i))) == Largest(Keys(start))
    ensures i + 1 <= Largest(Keys(start)) + 1
    ensures i + 1 <= |FillRange(start, i + 1)|
    ensures Largest(Keys(FillRange(start, i + 1))) == Largest(Keys(start))
  {
    var current := FillRange(start, i);
    FillRangeDistinct(start, i);
    DistinctOfKeys(current);
    DistinctBound(Keys(current));
    LargestFill(start, i + 1);
  }

  /** When the terminating loop stops, the length is one past the largest key. */
  lemma FillStop(start: Entries, i: nat)
    requires start != [] && DistinctKeys(start)
    requires i == |FillRange(start, i)|
    requires Largest(Keys(FillRange(start, i))) == Largest(Keys(start))
    ensures i == Largest(Keys(start)) + 1
  {
    var final := FillRange(start, i);
    forall k | 0 <= k < i
      ensures k in Keys(final)
    {
      FillRangeKeys(start, i, k);
    }
    FillRangeDistinct(start, i);
    DistinctOfKeys(final);
    DenseExact(Keys(final), i);
    DistinctBound(Keys(final));
    LargestIn(Keys(final));
  }

  /** The fill up to the last entry's key followed by the terminating loop fills up to the largest key. */
  lemma FillThenExtend(start: Entries, last: nat, filled: Entries, final: Entries)
    requires start != [] && last == start[|start| - 1].0
    requires filled == FillRange(start, last + 1)
    requires final == FillRange(filled, |final|)
    requires |final| == Largest(Keys(filled)) + 1
    ensures final == FillRange(start, Largest(Keys(start)) + 1)
  {
    var m := Largest(Keys(start));
    assert Keys(start)[|start| - 1] == last;
    assert last <= m;
    LargestFill(start, last + 1);
    assert |final| == m + 1;
    FillRangeTwice(start, last + 1, m + 1);
  }

  /** The `IndexMap<u64, u64>` that `maximums` mutates in place. */
  class PeakMap {
    var entries: Entries

    ghost predicate Valid()
      reads this
    {
      DistinctKeys(entries)
    }

    /** `peaks.entry(k).or_default()`. */
    method EntryOrDefault(k: nat)
      requires Valid()
      modifies this
      ensures Valid()
      ensures entries == WithDefault(old(entries), k)
    {
      WithDefaultDistinct(entries, k);
      if k !in Keys(entries) {
        entries := entries + [(k, 0)];
      }
    }

    /**
     * `maximums`: `None` on an empty map; otherwise every mass from 0 to the largest key ends
     * up present, old entries keep their place and intensity, and the new ones map to 0. The
     * loop after the fill is the terminating one of `FillToLength`.
     */
    method Maximums() returns (r: Option<()>)
      requires Valid()
      modifies this
      ensures Valid()
      ensures r.None? <==> old(entries) == []
      ensures r.None? ==> entries == old(entries)
      ensures r.Some? ==> entries == FillRange(old(entries), Largest(Keys(old(entries))) + 1)
    {
      if entries == [] {
        return None;
      }
      ghost var start := entries;
      var max := entries[|entries| - 1].0;
      FillThrough(max);
      ghost var filled := entries;
      FillToLength();
      FillThenExtend(start, max, filled, entries);
      return Some(());
    }

    /** `for i in 0..=max { peaks.entry(i).or_default(); }` */
    method FillThrough(max: nat)
      requires Valid()
      modifies this
      ensures Valid()
      ensures entries == FillRange(old(entries), max + 1)
    {
      ghost var start := entries;
      for i := 0 to max + 1
        invariant Valid()
        invariant entries == FillRange(start, i)
      {
        EntryOrDefault(i);
      }
    }

    /**
     * The loop after the fill with its counter advanced (the loop as written never advances
     * it): touch the entry of every mass below the map's length, which grows as it goes.
     * It stops with every mass from 0 to the largest key present.
     */
    method FillToLength()
      requires Valid()
      modifies this
      ensures Valid()
      ensures entries == FillRange(old(entries), |entries|)
      ensures old(entries) == [] ==> entries == []
      ensures old(entries) != [] ==> |entries| == Largest(Keys(old(entries))) + 1
    {
      ghost var start := entries;
      ghost var m := Largest(Keys(start));
      var i := 0;
      while i < |entries|
        invariant Valid()
        invariant i <= |entries|
        invariant entries == FillRange(start, i)
        invariant start == [] ==> entries == []
        invariant start != [] ==> i <= m + 1 && Largest(Keys(entries)) == m
        decreases m + 1 - i
      {
        FillStep(start, i);
        EntryOrDefault(i);
        i := i + 1;
      }
      if start != [] {
        FillStop(start, i);
      }
    }
  }

  /* ---------- the loop at lines 51-54 as written ---------- */

  /** One pass of that loop's body: the entry of `i` is touched and `i` is not advanced. */
  function AsWrittenStep(es: Entries, i: nat): (Entries, nat)
  {
    (WithDefault(es, i), i)
  }

  /** The map and counter after `n` passes, starting from `i == 0`. */
  function AsWrittenRun(es: Entries, n: nat): (Entries, nat)
    decreases n
  {
    if n == 0 then (es, 0)
    else
      var s := AsWrittenRun(es, n - 1);
      AsWrittenStep(s.0, s.1)
  }

  /** On a non-empty map the guard `i < peaks.len()` still holds after any number of passes. */
  lemma {:induction false} AsWrittenNeverExits(es: Entries, n: nat)
    requires es != []
    ensures AsWrittenRun(es, n).1 == 0
    ensures AsWrittenRun(es, n).1 < |AsWrittenRun(es, n).0|
    decreases n
  {
    if n > 0 {
      AsWrittenNeverExits(es, n - 1);
    }
  }

  /* ---------- the sparse-to-dense fold ---------- */

  /** `while key > output.len() { output.push(0) }`. */
  function Pad(s: seq<nat>, key: nat): (r: seq<nat>)
    ensures |r| == if key > |s| then key else |s|
    ensures r[..|s|] == s
    ensures forall p :: |s| <= p < |r| ==> r[p] == 0
    decreases key - |s|
  {
    if key > |s| then Pad(s + [0], key) else s
  }

  /** The fold at lines 163-169: pad with zeros up to the key, then push the value. */
  function Dense(es: Entries): seq<nat>
    decreases |es|
  {
    if es == [] then []
    else
      var last := es[|es| - 1];
      Pad(Dense(es[..|es| - 1]), last.0) + [last.1]
  }

  method Densify(input: Entries) returns (output: seq<nat>)
    ensures output == Dense(input)
  {
    output := [];
    for n := 0 to |input|
      invariant output == Dense(input[..n])
    {
      var (key, value) := input[n];
      while key > |output|
        invariant Pad(output, key) == Pad(Dense(input[..n]), key)
        decreases key - |output|
      {
        output := output + [0];
      }
      output := output + [value];
      assert input[..n + 1][..n] == input[..n];
    }
    assert input[..|input|] == input;
  }

  predicate StrictlyAscending(es: Entries)
  {
    forall i, j :: 0 <= i < j < |es| ==> es[i].0 < es[j].0
  }

  /** Padding up to `key` and pushing `value` puts `value` at index `key`, after zeros. */
  lemma PushAfterPad(before: seq<nat>, key: nat, value: nat)
    requires |before| <= key
    ensures |Pad(before, key) + [value]| == key + 1
    ensures (Pad(before, key) + [value])[..|before|] == before
    ensures (Pad(before, key) + [value])[key] == value
    ensures forall p :: |before| <= p < key ==> (Pad(before, key) + [value])[p] == 0
  {
    var padded := Pad(before, key);
    assert (padded + [value])[..|before|] == padded[..|before|];
  }

  /**
   * For strictly ascending keys the fold puts each value at the index of its key, fills the
   * gaps with 0, and ends at the last key.
   */
  lemma {:induction false} DenseOfAscending(es: Entries)
    requires StrictlyAscending(es)
    ensures |Dense(es)| == if es == [] then 0 else es[|es| - 1].0 + 1
    ensures forall j :: 0 <= j < |es| ==> es[j].0 < |Dense(es)| && Dense(es)[es[j].0] == es[j].1
    ensures forall p :: 0 <= p < |Dense(es)| && p !in Keys(es) ==> Dense(es)[p] == 0
    decreases |es|
  {
    if es != [] {
      var n := |es| - 1;
      var init := es[..n];
      var before := Dense(init);
      var after := Dense(es);
      DenseOfAscending(init);
      assert |before| <= es[n].0 by {
        if n > 0 {
          assert init[n - 1] == es[n - 1];
        }
      }
      assert after == Pad(before, es[n].0) + [es[n].1];
      PushAfterPad(before, es[n].0, es[n].1);
      forall j | 0 <= j < n
        ensures es[j].0 < |after| && after[es[j].0] == es[j].1
      {
        assert init[j] == es[j];
        assert after[..|before|][es[j].0] == before[es[j].0];
      }
      assert Keys(init) == Keys(es)[..n];
      forall p | 0 <= p < |after| && p !in Keys(es)
        ensures after[p] == 0
      {
        if p < |before| {
          assert p !in Keys(init);
          assert after[..|before|][p] == before[p];
        }
      }
    }
  }

  /** The unit test's input `9 => 0, 10 => 1, 11 => 2, 12 => 3` gives the vector of test `a`. */
  lemma DenseOfTestInput()
    ensures Dense([(9, 0), (10, 1), (11, 2), (12, 3)]) == [0, 0, 0, 0, 0, 0, 0, 0, 0, 0, 1, 2, 3]
  {
    var es: Entries := [(9, 0), (10, 1), (11, 2), (12, 3)];
    DenseOfAscending(es);
    assert Keys(es) == [9, 10, 11, 12];
  }
}
