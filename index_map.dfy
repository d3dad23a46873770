/**
 * `IndexMap<u64, u64>`: an insertion-ordered map, as a sequence of (key, value) entries
 * with distinct keys. Inserting a present key replaces its value in place; a new key
 * goes to the end.
 */
module IndexMaps {
  import opened Wrappers

  type Entries = seq<(nat, nat)>

  predicate DistinctKeys(es: Entries)
  {
    forall i, j :: 0 <= i < j < |es| ==> es[i].0 != es[j].0
  }

  /** The keys in iteration order. */
  function Keys(es: Entries): (r: seq<nat>)
    ensures |r| == |es| && forall i :: 0 <= i < |es| ==> r[i] == es[i].0
  {
    seq(|es|, i requires 0 <= i < |es| => es[i].0)
  }

  /** The values in iteration order: `IndexMap::values`. */
  function Values(es: Entries): (r: seq<nat>)
    ensures |r| == |es| && forall i :: 0 <= i < |es| ==> r[i] == es[i].1
  {
    seq(|es|, i requires 0 <= i < |es| => es[i].1)
  }

  /** The position of the first entry with key `k`. */
  function Find(es: Entries, k: nat): (r: Option<nat>)
    ensures r.Some? ==> r.value < |es| && es[r.value].0 == k
    ensures r.Some? ==> forall i :: 0 <= i < r.value ==> es[i].0 != k
    ensures r.None? <==> k !in Keys(es)
    decreases |es|
  {
    if es == [] then None
    else if es[0].0 == k then Some(0)
    else match Find(es[1..], k)
      case Some(i) => Some(i + 1)
      case None => None
  }

  /** `IndexMap::get`. */
  function Get(es: Entries, k: nat): Option<nat>
  {
    match Find(es, k)
    case Some(i) => Some(es[i].1)
    case None => None
  }

  /** `IndexMap::insert`: replace the value of a present key in place, or append. */
  function Insert(es: Entries, k: nat, v: nat): (r: Entries)
    ensures DistinctKeys(es) ==> DistinctKeys(r)
    ensures Keys(r) == if k in Keys(es) then Keys(es) else Keys(es) + [k]
    ensures Get(r, k) == Some(v)
    ensures forall k' :: k' != k ==> Get(r, k') == Get(es, k')
  {
    match Find(es, k)
    case Some(i) => ReplacedEntry(es, i, k, v); es[i := (k, v)]
    case None => AppendedEntry(es, k, v); es + [(k, v)]
  }

  lemma ReplacedEntry(es: Entries, i: nat, k: nat, v: nat)
    requires Find(es, k) == Some(i)
    ensures DistinctKeys(es) ==> DistinctKeys(es[i := (k, v)])
    ensures Keys(es[i := (k, v)]) == Keys(es)
    ensures Get(es[i := (k, v)], k) == Some(v)
    ensures forall k' :: k' != k ==> Get(es[i := (k, v)], k') == Get(es, k')
  {
    var r := es[i := (k, v)];
    forall k' | k' != k
      ensures Find(r, k') == Find(es, k')
    {
      FindUpdated(es, i, k, v, k');
    }
    assert Keys(r) == Keys(es);
  }

  lemma AppendedEntry(es: Entries, k: nat, v: nat)
    requires Find(es, k).None?
    ensures DistinctKeys(es) ==> DistinctKeys(es + [(k, v)])
    ensures Keys(es + [(k, v)]) == Keys(es) + [k]
    ensures Get(es + [(k, v)], k) == Some(v)
    ensures forall k' :: k' != k ==> Get(es + [(k, v)], k') == Get(es, k')
  {
    var r := es + [(k, v)];
    forall k' | k' != k
      ensures Find(r, k') == Find(es, k')
    {
      FindAppended(es, k, v, k');
    }
    FindLast(es, k, v);
    assert Keys(r) == Keys(es) + [k];
  }

  lemma {:induction false} FindUpdated(es: Entries, i: nat, k: nat, v: nat, k': nat)
    requires i < |es| && es[i].0 == k && k' != k
    ensures Find(es[i := (k, v)], k') == Find(es, k')
    decreases |es|
  {
    if es[0].0 != k' && i > 0 {
      assert es[i := (k, v)][1..] == es[1..][i - 1 := (k, v)];
      FindUpdated(es[1..], i - 1, k, v, k');
    } else if i == 0 {
      assert es[i := (k, v)][1..] == es[1..];
    }
  }

  lemma {:induction false} FindAppended(es: Entries, k: nat, v: nat, k': nat)
    requires k' != k
    ensures Find(es + [(k, v)], k') == Find(es, k')
    decreases |es|
  {
    if es != [] && es[0].0 != k' {
      assert (es + [(k, v)])[1..] == es[1..] + [(k, v)];
      FindAppended(es[1..], k, v, k');
    }
  }

  lemma {:induction false} FindLast(es: Entries, k: nat, v: nat)
    requires k !in Keys(es)
    ensures Find(es + [(k, v)], k) == Some(|es|)
    decreases |es|
  {
    if es != [] {
      assert (es + [(k, v)])[1..] == es[1..] + [(k, v)];
      assert Keys(es[1..]) == Keys(es)[1..];
      FindLast(es[1..], k, v);
    }
  }

  /** `collect()` of key-value pairs into an `IndexMap`: insert each pair in turn. */
  function Collect(pairs: seq<(nat, nat)>): Entries
    decreases |pairs|
  {
    if pairs == [] then []
    else
      var n := |pairs| - 1;
      Insert(Collect(pairs[..n]), pairs[n].0, pairs[n].1)
  }

  /** The keys of `s` in order of first occurrence. */
  function FirstOccurrences(s: seq<nat>): seq<nat>
    decreases |s|
  {
    if s == [] then []
    else
      var rest := FirstOccurrences(s[..|s| - 1]);
      if s[|s| - 1] in rest then rest else rest + [s[|s| - 1]]
  }

  /** The value the last pair with key `k` carries, if any. */
  function LastValue(pairs: seq<(nat, nat)>, k: nat): Option<nat>
    decreases |pairs|
  {
    if pairs == [] then None
    else if pairs[|pairs| - 1].0 == k then Some(pairs[|pairs| - 1].1)
    else LastValue(pairs[..|pairs| - 1], k)
  }

  lemma {:induction false} FirstOccurrencesMembers(s: seq<nat>, k: nat)
    ensures k in FirstOccurrences(s) <==> k in s
    decreases |s|
  {
    if s != [] {
      FirstOccurrencesMembers(s[..|s| - 1], k);
      assert s == s[..|s| - 1] + [s[|s| - 1]];
    }
  }

  /**
   * Collecting pairs gives distinct keys, in the order of their first occurrence, each
   * with the value of its last occurrence; so there are never more keys than pairs.
   */
  lemma {:induction false} CollectProperties(pairs: seq<(nat, nat)>)
    ensures DistinctKeys(Collect(pairs))
    ensures Keys(Collect(pairs)) == FirstOccurrences(Keys(pairs))
    ensures forall k :: Get(Collect(pairs), k) == LastValue(pairs, k)
    ensures |Collect(pairs)| <= |pairs|
    decreases |pairs|
  {
    if pairs != [] {
      var n := |pairs| - 1;
      CollectProperties(pairs[..n]);
      assert Keys(pairs)[..n] == Keys(pairs[..n]);
    }
  }

  /** Inserting a key that is not there appends its entry. */
  lemma InsertNew(es: Entries, k: nat, v: nat)
    requires k !in Keys(es)
    ensures Insert(es, k, v) == es + [(k, v)]
  {
  }

  /** With distinct keys, collecting keeps the pairs exactly as they are. */
  lemma {:induction false} CollectDistinct(pairs: seq<(nat, nat)>)
    requires DistinctKeys(pairs)
    ensures Collect(pairs) == pairs
    decreases |pairs|
  {
    if pairs != [] {
      var n := |pairs| - 1;
      var init := pairs[..n];
      assert DistinctKeys(init);
      CollectDistinct(init);
      assert pairs[n].0 !in Keys(init) by {
        forall j | 0 <= j < n
          ensures Keys(init)[j] != pairs[n].0
        {
          assert Keys(init)[j] == pairs[j].0;
        }
      }
      InsertNew(init, pairs[n].0, pairs[n].1);
      assert init + [pairs[n]] == pairs;
    }
  }

}
