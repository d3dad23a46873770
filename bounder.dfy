/**
 * `Bounder::compute` of src/app/bounder.rs: the dense filter that keeps an intensity
 * only when its mass (its index) lies in the mass range and the intensity itself meets
 * the lower intensity bound; every other entry becomes 0 and the length is unchanged.
 */
module Bounder {
  import opened BoundExt
  import opened AppBounds

  /** Whether the entry at `mass` with `intensity` survives the filter. */
  predicate Keeps(bounds: Bounds, mass: nat, intensity: nat)
  {
    Contains(bounds.mass, mass) && Contains((bounds.intensity, Unbounded), intensity)
  }

  /** `Bounder::compute`. */
  function Compute(intensities: seq<nat>, bounds: Bounds): (r: seq<nat>)
    ensures |r| == |intensities|
    ensures forall mass :: 0 <= mass < |r| ==> r[mass] == intensities[mass] || r[mass] == 0
    ensures forall mass :: 0 <= mass < |r| ==> r[mass] <= intensities[mass]
  {
    seq(|intensities|, mass requires 0 <= mass < |intensities| =>
      if Keeps(bounds, mass, intensities[mass]) then intensities[mass] else 0)
  }

  /**
   * An entry is kept exactly when its mass meets both mass bounds and its intensity
   * meets the lower intensity bound; no upper intensity limit applies.
   */
  lemma KeptIff(intensities: seq<nat>, bounds: Bounds, mass: nat)
    requires mass < |intensities| && intensities[mass] != 0
    ensures Compute(intensities, bounds)[mass] == intensities[mass] <==>
      AdmitsFrom(bounds.mass.0, mass) && AdmitsUpTo(bounds.mass.1, mass)
      && AdmitsFrom(bounds.intensity, intensities[mass])
  {
  }

  /** Filtering twice with the same bounds is filtering once. */
  lemma ComputeIdempotent(intensities: seq<nat>, bounds: Bounds)
    ensures Compute(Compute(intensities, bounds), bounds) == Compute(intensities, bounds)
  {
    var once := Compute(intensities, bounds);
    var twice := Compute(once, bounds);
    forall mass | 0 <= mass < |once|
      ensures twice[mass] == once[mass]
    {
      if once[mass] != 0 {
        assert Keeps(bounds, mass, intensities[mass]);
      }
    }
  }

  /** With the default bounds the filter is the identity. */
  lemma ComputeDefaultIsIdentity(intensities: seq<nat>)
    ensures Compute(intensities, DefaultBounds()) == intensities
  {
  }

  /** Widening any of the three bounds never zeroes an entry the narrower bounds kept. */
  lemma ComputeWidened(intensities: seq<nat>, narrow: Bounds, wide: Bounds, mass: nat)
    requires WiderFrom(narrow.mass.0, wide.mass.0) && WiderUpTo(narrow.mass.1, wide.mass.1)
    requires WiderFrom(narrow.intensity, wide.intensity)
    requires mass < |intensities|
    requires Compute(intensities, narrow)[mass] == intensities[mass]
    ensures Compute(intensities, wide)[mass] == intensities[mass]
  {
    if intensities[mass] != 0 {
      assert Keeps(narrow, mass, intensities[mass]);
      WiderFromAdmits(narrow.mass.0, wide.mass.0, mass);
      WiderUpToAdmits(narrow.mass.1, wide.mass.1, mass);
      WiderFromAdmits(narrow.intensity, wide.intensity, intensities[mass]);
    }
  }
}
