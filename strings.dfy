/**
 * `Truncate::truncate` for `str` of src/utils/string.rs: the prefix of at most `max`
 * characters. A string is its sequence of characters here, so the byte offset that
 * `char_indices().nth(max)` yields is the position `max` itself.
 */
module Strings {

  /** `&self[..index]` at the `max`-th character, or the whole string when there is none. */
  function Truncate(s: string, max: nat): (r: string)
    ensures r <= s
    ensures |r| == if max < |s| then max else |s|
  {
    if max < |s| then s[..max] else s
  }

  /** A string of at most `max` characters comes back unchanged. */
  lemma TruncateShort(s: string, max: nat)
    requires |s| <= max
    ensures Truncate(s, max) == s
  {
  }

  lemma TruncateToZero(s: string)
    ensures Truncate(s, 0) == []
  {
  }

  /** Truncating again to the same length changes nothing. */
  lemma TruncateIdempotent(s: string, max: nat)
    ensures Truncate(Truncate(s, max), max) == Truncate(s, max)
  {
  }

  /** A shorter truncation is a prefix of a longer one. */
  lemma TruncateMonotone(s: string, a: nat, b: nat)
    requires a <= b
    ensures Truncate(s, a) <= Truncate(s, b)
    ensures Truncate(Truncate(s, b), a) == Truncate(s, a)
  {
  }
}
