/**
 * `std::ops::Bound` and the extension methods of src/utils/bound.rs, together with the
 * containment rule of `RangeBounds::contains` for a `(start, end)` pair of bounds.
 */
module BoundExt {
  import opened Wrappers

  /** `Bound<T>` over the unsigned integer types of the program. */
  datatype Bound = Included(v: nat) | Excluded(v: nat) | Unbounded

  /** The quantity a lower (`start`) bound admits. */
  predicate AdmitsFrom(b: Bound, x: nat)
  {
    match b
    case Included(s) => s <= x
    case Excluded(s) => s < x
    case Unbounded => true
  }

  /** The quantity an upper (`end`) bound admits. */
  predicate AdmitsUpTo(b: Bound, x: nat)
  {
    match b
    case Included(e) => x <= e
    case Excluded(e) => x < e
    case Unbounded => true
  }

  /** `RangeBounds::contains` for the pair `(start, end)`. */
  predicate Contains(range: (Bound, Bound), x: nat)
  {
    AdmitsFrom(range.0, x) && AdmitsUpTo(range.1, x)
  }

  /** `BoundExt::value`: the value carried by the bound, if any. */
  function Value(b: Bound): (r: Option<nat>)
    ensures r.Some? <==> !b.Unbounded?
    ensures r.Some? ==> r.value == b.v
  {
    match b
    case Included(value) => Some(value)
    case Excluded(value) => Some(value)
    case Unbounded => None
  }

  /** `BoundExt::variant_name`: the name of the constructor. */
  function VariantName(b: Bound): (r: string)
    ensures b.Included? <==> r == "Included"
    ensures b.Excluded? <==> r == "Excluded"
    ensures b.Unbounded? <==> r == "Unbounded"
  {
    match b
    case Included(_) => "Included"
    case Excluded(_) => "Excluded"
    case Unbounded => "Unbounded"
  }

  /** A bound carries no value exactly when its variant is named "Unbounded". */
  lemma ValueNoneIffUnboundedName(b: Bound)
    ensures Value(b) == None <==> VariantName(b) == "Unbounded"
  {
  }

  /**
   * `RangeBoundsExt::start`: the value of the start bound whichever way it is
   * closed, and the type's minimum (0 for the unsigned types used) when unbounded.
   */
  function Start(range: (Bound, Bound)): (r: nat)
    ensures range.0.Unbounded? ==> r == 0
    ensures Value(range.0) == Some(r) || (range.0.Unbounded? && r == 0)
  {
    match range.0
    case Included(value) => value
    case Excluded(value) => value
    case Unbounded => 0
  }

  /**
   * `RangeBoundsExt::end`: the value of the end bound whichever way it is closed,
   * and `typeMax` (the type's `MAX`) when unbounded.
   */
  function End(range: (Bound, Bound), typeMax: nat): (r: nat)
    ensures range.1.Unbounded? ==> r == typeMax
    ensures Value(range.1) == Some(r) || (range.1.Unbounded? && r == typeMax)
  {
    match range.1
    case Included(value) => value
    case Excluded(value) => value
    case Unbounded => typeMax
  }

  /** Every value the range contains lies between `Start` and `End`. */
  lemma ContainedBetweenStartAndEnd(range: (Bound, Bound), typeMax: nat, x: nat)
    requires x <= typeMax
    requires Contains(range, x)
    ensures Start(range) <= x <= End(range, typeMax)
  {
  }

  /** `wide` admits, as a lower bound, everything `narrow` admits. */
  predicate WiderFrom(narrow: Bound, wide: Bound)
  {
    match wide
    case Unbounded => true
    case Included(w) => (narrow.Included? || narrow.Excluded?) && w <= narrow.v
    case Excluded(w) =>
      (narrow.Excluded? && w <= narrow.v) || (narrow.Included? && w < narrow.v)
  }

  /** `wide` admits, as an upper bound, everything `narrow` admits. */
  predicate WiderUpTo(narrow: Bound, wide: Bound)
  {
    match wide
    case Unbounded => true
    case Included(w) => (narrow.Included? || narrow.Excluded?) && narrow.v <= w
    case Excluded(w) =>
      (narrow.Excluded? && narrow.v <= w) || (narrow.Included? && narrow.v < w)
  }

  /** Widening a lower bound never rejects a value the narrower one admitted. */
  lemma WiderFromAdmits(narrow: Bound, wide: Bound, x: nat)
    requires WiderFrom(narrow, wide) && AdmitsFrom(narrow, x)
    ensures AdmitsFrom(wide, x)
  {
  }

  /** Widening an upper bound never rejects a value the narrower one admitted. */
  lemma WiderUpToAdmits(narrow: Bound, wide: Bound, x: nat)
    requires WiderUpTo(narrow, wide) && AdmitsUpTo(narrow, x)
    ensures AdmitsUpTo(wide, x)
  {
  }
}
