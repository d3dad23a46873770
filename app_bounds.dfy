/**
 * The filter settings of src/app/mod.rs: the `Bounds` struct, its `Default`
 * implementation and the `zero_is_included` flag handed to the prediction cache.
 */
module AppBounds {
  import opened BoundExt

  /** `Bounds`: a mass range and a lower intensity bound. */
  datatype Bounds = Bounds(mass: (Bound, Bound), intensity: Bound)

  /** `Bounds::default`: nothing is bounded. */
  function DefaultBounds(): (r: Bounds)
    ensures r.mass.0.Unbounded? && r.mass.1.Unbounded? && r.intensity.Unbounded?
  {
    Bounds((Unbounded, Unbounded), Unbounded)
  }

  /** `(self.bounds.intensity, Bound::Unbounded).contains(&0)`. */
  predicate ZeroIsIncluded(bounds: Bounds)
  {
    Contains((bounds.intensity, Unbounded), 0)
  }

  /** Zero passes the intensity filter exactly when its bound is `Unbounded` or `Included(0)`. */
  lemma ZeroIsIncludedIff(bounds: Bounds)
    ensures ZeroIsIncluded(bounds) <==> bounds.intensity == Unbounded || bounds.intensity == Included(0)
  {
  }

  /** Under the default bounds zero is included. */
  lemma ZeroIsIncludedByDefault()
    ensures ZeroIsIncluded(DefaultBounds())
  {
  }
}
