/**
 * `Predictioner::compute` of src/app/predictioner.rs: starting at the top mass
 * (`len - 1`) of a dense intensity sequence, step down by each delta of the permutation
 * with saturating subtraction and multiply the intensities visited, stopping early once
 * the product has vanished. Scores are exact naturals here, not `f64`.
 */
module Predictioner {

  /** `usize::saturating_sub`. */
  function SaturatingSub(a: nat, b: nat): (r: nat)
    ensures r <= a
    ensures r == 0 || r + b == a
  {
    if a >= b then a - b else 0
  }

  /** The mass reached from `start` after stepping down by every delta of `deltas`. */
  function MassAfter(start: nat, deltas: seq<nat>): (r: nat)
    decreases |deltas|
  {
    if deltas == [] then start
    else SaturatingSub(MassAfter(start, deltas[..|deltas| - 1]), deltas[|deltas| - 1])
  }

  /** The product of the intensities visited after each step (the start not included). */
  function VisitedProduct(intensities: seq<nat>, start: nat, deltas: seq<nat>): nat
    requires start < |intensities|
    decreases |deltas|
  {
    if deltas == [] then 1
    else
      MassAfterBounded(start, deltas);
      VisitedProduct(intensities, start, deltas[..|deltas| - 1]) * intensities[MassAfter(start, deltas)]
  }

  /** The score of a permutation in exact arithmetic: the start intensity times every visited one. */
  function Score(permutation: seq<nat>, intensities: seq<nat>): nat
    requires |intensities| > 0
  {
    intensities[|intensities| - 1] * VisitedProduct(intensities, |intensities| - 1, permutation)
  }

  /** The running mass never rises above where it started, so every lookup is in range. */
  lemma {:induction false} MassAfterBounded(start: nat, deltas: seq<nat>)
    ensures MassAfter(start, deltas) <= start
    decreases |deltas|
  {
    if deltas != [] {
      MassAfterBounded(start, deltas[..|deltas| - 1]);
    }
  }

  /** The mass is non-increasing along the walk. */
  lemma {:induction false} MassNonIncreasing(start: nat, deltas: seq<nat>, j: nat, k: nat)
    requires j <= k <= |deltas|
    ensures MassAfter(start, deltas[..k]) <= MassAfter(start, deltas[..j])
    decreases k - j
  {
    if j < k {
      MassNonIncreasing(start, deltas, j, k - 1);
      assert deltas[..k][..k - 1] == deltas[..k - 1];
    }
  }

  /** Once the walk reaches mass 0 it stays there. */
  lemma MassStaysAtZero(start: nat, deltas: seq<nat>, j: nat, k: nat)
    requires j <= k <= |deltas|
    requires MassAfter(start, deltas[..j]) == 0
    ensures MassAfter(start, deltas[..k]) == 0
  {
    MassNonIncreasing(start, deltas, j, k);
  }

  /** A vanished product stays vanished, so breaking out early does not change the result. */
  lemma {:induction false} VanishedProductStays(intensities: seq<nat>, start: nat, deltas: seq<nat>, k: nat)
    requires start < |intensities| && k <= |deltas|
    requires VisitedProduct(intensities, start, deltas[..k]) == 0
    ensures VisitedProduct(intensities, start, deltas) == 0
    decreases |deltas| - k
  {
    if k < |deltas| {
      assert deltas[..k + 1][..k] == deltas[..k];
      VanishedProductStays(intensities, start, deltas, k + 1);
    } else {
      assert deltas[..k] == deltas;
    }
  }

  lemma ProductZero(a: nat, b: nat)
    ensures a * b == 0 <==> a == 0 || b == 0
  {
    if a != 0 && b != 0 {
      assert a * b >= b;
    }
  }

  /** Some intensity visited within the first `n` steps of the walk is 0. */
  predicate VisitsZero(intensities: seq<nat>, start: nat, deltas: seq<nat>, n: nat)
    requires n <= |deltas|
  {
    exists j :: 0 < j <= n && MassAfter(start, deltas[..j]) < |intensities|
      && intensities[MassAfter(start, deltas[..j])] == 0
  }

  /** Only the first `n` deltas matter to VisitsZero. */
  lemma VisitsZeroOfPrefix(intensities: seq<nat>, start: nat, deltas: seq<nat>, p: nat, n: nat)
    requires n <= p <= |deltas|
    ensures VisitsZero(intensities, start, deltas[..p], n) <==> VisitsZero(intensities, start, deltas, n)
  {
    forall j | 0 < j <= n
      ensures deltas[..p][..j] == deltas[..j]
    {
    }
  }

  /** VisitsZero grows by one step at a time. */
  lemma VisitsZeroStep(intensities: seq<nat>, start: nat, deltas: seq<nat>, n: nat)
    requires 0 < n <= |deltas|
    ensures VisitsZero(intensities, start, deltas, n) <==>
      VisitsZero(intensities, start, deltas, n - 1) ||
      (MassAfter(start, deltas[..n]) < |intensities| && intensities[MassAfter(start, deltas[..n])] == 0)
  {
  }

  /** The visited product vanishes exactly when some visited intensity is 0. */
  lemma {:induction false} VisitedProductZeroIff(intensities: seq<nat>, start: nat, deltas: seq<nat>)
    requires start < |intensities|
    ensures VisitedProduct(intensities, start, deltas) == 0 <==> VisitsZero(intensities, start, deltas, |deltas|)
    decreases |deltas|
  {
    if deltas != [] {
      var n := |deltas|;
      var init := deltas[..n - 1];
      VisitedProductZeroIff(intensities, start, init);
      MassAfterBounded(start, deltas);
      ProductZero(VisitedProduct(intensities, start, init), intensities[MassAfter(start, deltas)]);
      VisitsZeroOfPrefix(intensities, start, deltas, n - 1, n - 1);
      VisitsZeroStep(intensities, start, deltas, n);
      assert deltas[..n] == deltas;
    }
  }

  /** The score is 0 exactly when the start intensity or some visited intensity is 0. */
  lemma ScoreZeroIff(permutation: seq<nat>, intensities: seq<nat>)
    requires |intensities| > 0
    ensures Score(permutation, intensities) == 0 <==>
      intensities[|intensities| - 1] == 0 || VisitsZero(intensities, |intensities| - 1, permutation, |permutation|)
  {
    VisitedProductZeroIff(intensities, |intensities| - 1, permutation);
    ProductZero(intensities[|intensities| - 1], VisitedProduct(intensities, |intensities| - 1, permutation));
  }

  /** With an empty permutation the score is the top intensity. */
  lemma ScoreOfEmpty(intensities: seq<nat>)
    requires |intensities| > 0
    ensures Score([], intensities) == intensities[|intensities| - 1]
  {
  }

  /** `Predictioner::compute`; the intensity sequence must be non-empty, since `len - 1` underflows otherwise. */
  method Compute(permutation: seq<nat>, intensities: seq<nat>) returns (intensity: nat)
    requires |intensities| > 0
    ensures intensity == Score(permutation, intensities)
  {
    var top := |intensities| - 1;
    var mass := top;
    intensity := intensities[mass];
    var k := 0;
    while k < |permutation|
      invariant 0 <= k <= |permutation|
      invariant mass == MassAfter(top, permutation[..k]) && mass <= top
      invariant intensity == intensities[top] * VisitedProduct(intensities, top, permutation[..k])
    {
      assert permutation[..k + 1][..k] == permutation[..k];
      var before := VisitedProduct(intensities, top, permutation[..k]);
      mass := SaturatingSub(mass, permutation[k]);
      assert VisitedProduct(intensities, top, permutation[..k + 1]) == before * intensities[mass];
      MulAssoc(intensities[top], before, intensities[mass]);
      intensity := intensity * intensities[mass];
      k := k + 1;
      // `intensity < f64::EPSILON`: a product of naturals is that small only when it is 0
      if intensity == 0 {
        var visited := VisitedProduct(intensities, top, permutation[..k]);
        ProductZero(intensities[top], visited);
        ProductZero(intensities[top], VisitedProduct(intensities, top, permutation));
        if intensities[top] != 0 {
          VanishedProductStays(intensities, top, permutation, k);
        }
        break;
      }
    }
    if k == |permutation| {
      assert permutation[..k] == permutation;
    }
  }

  lemma MulAssoc(a: nat, b: nat, c: nat)
    ensures a * (b * c) == (a * b) * c
  {
  }
}
