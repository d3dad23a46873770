/**
 * The prediction pieces of src/app/mod.rs: the walk that `plot` draws for each cached
 * prediction, the additive Cartesian-product scoring of the `test2` test, and the
 * pattern editing done by the "Finder" panel. A pattern is a sequence of steps, each a
 * sequence of candidate mass deltas; a prediction picks one candidate index per step.
 */
module AppFinder {
  import opened Wrappers

  /** Sum of a sequence of naturals, accumulated from the front as the walks do. */
  function Sum(s: seq<nat>): nat
    decreases |s|
  {
    if s == [] then 0 else Sum(s[..|s| - 1]) + s[|s| - 1]
  }

  /** Sums of prefixes never exceed the sum of the whole. */
  lemma {:induction false} PrefixSumBounded(s: seq<nat>, k: nat)
    requires k <= |s|
    ensures Sum(s[..k]) <= Sum(s)
    decreases |s| - k
  {
    if k < |s| {
      PrefixSumBounded(s, k + 1);
      assert s[..k + 1][..k] == s[..k];
    } else {
      assert s[..k] == s;
    }
  }

  /** `prediction` names a candidate of each of the first `|prediction|` steps. */
  predicate Chooses(pattern: seq<seq<nat>>, prediction: seq<nat>)
  {
    |prediction| <= |pattern| && forall j :: 0 <= j < |prediction| ==> prediction[j] < |pattern[j]|
  }

  /** The deltas a prediction picks: `self.pattern[j][prediction.0[j]]`. */
  function Deltas(pattern: seq<seq<nat>>, prediction: seq<nat>): (r: seq<nat>)
    requires Chooses(pattern, prediction)
    ensures |r| == |prediction|
    ensures forall j :: 0 <= j < |r| ==> r[j] in pattern[j]
  {
    seq(|prediction|, j requires 0 <= j < |prediction| => pattern[j][prediction[j]])
  }

  /** The intensity drawn at `mass`: a mass absent from the peaks reads as 0. */
  function Lookup(peaks: map<nat, nat>, mass: nat): (r: nat)
    ensures mass !in peaks ==> r == 0
    ensures mass in peaks ==> r == peaks[mass]
  {
    if mass in peaks then peaks[mass] else 0
  }

  /** The mass after step `j`: the start minus the deltas of steps `0..=j`. */
  function MassAt(start: nat, deltas: seq<nat>, j: nat): nat
    requires j < |deltas| && Sum(deltas) <= start
  {
    PrefixSumBounded(deltas, j + 1);
    start - Sum(deltas[..j + 1])
  }

  /** The points `plot` draws for one prediction: the mass after each step and its intensity. */
  function Series(start: nat, deltas: seq<nat>, peaks: map<nat, nat>): seq<(nat, nat)>
    requires Sum(deltas) <= start
  {
    seq(|deltas|, j requires 0 <= j < |deltas| => (MassAt(start, deltas, j), Lookup(peaks, MassAt(start, deltas, j))))
  }

  /** Consecutive points of a series are one chosen delta apart. */
  lemma SeriesStepsByDelta(start: nat, deltas: seq<nat>, peaks: map<nat, nat>, j: nat)
    requires Sum(deltas) <= start && j + 1 < |deltas|
    ensures Series(start, deltas, peaks)[j].0 == Series(start, deltas, peaks)[j + 1].0 + deltas[j + 1]
  {
    assert deltas[..j + 2][..j + 1] == deltas[..j + 1];
  }

  /**
   * The inner loop of the prediction drawing in `plot`: `mass -= delta` for each step and
   * look the mass up in the filtered peaks. The subtraction of a `usize` panics on
   * underflow, so the chosen deltas must not add up to more than the start mass.
   */
  method Walk(start: nat, pattern: seq<seq<nat>>, prediction: seq<nat>, peaks: map<nat, nat>)
    returns (series: seq<(nat, nat)>)
    requires Chooses(pattern, prediction)
    requires Sum(Deltas(pattern, prediction)) <= start
    ensures series == Series(start, Deltas(pattern, prediction), peaks)
  {
    ghost var deltas := Deltas(pattern, prediction);
    series := [];
    var mass: nat := start;
    var j := 0;
    while j < |prediction|
      invariant 0 <= j <= |prediction|
      invariant mass + Sum(deltas[..j]) == start
      invariant series == Series(start, deltas, peaks)[..j]
    {
      var delta := pattern[j][prediction[j]];
      PrefixSumBounded(deltas, j + 1);
      assert deltas[..j + 1][..j] == deltas[..j];
      mass := mass - delta;
      ghost var all := Series(start, deltas, peaks);
      assert all[j] == (mass, Lookup(peaks, mass));
      assert all[..j + 1] == all[..j] + [all[j]];
      var intensity := Lookup(peaks, mass);
      series := series + [(mass, intensity)];
      j := j + 1;
    }
    assert Series(start, deltas, peaks)[..j] == Series(start, deltas, peaks);
  }

  /**
   * The outer loop of the prediction drawing: at most `count` predictions, taken from the
   * front of the ranked list and drawn in reverse order (`take(count).enumerate().rev()`).
   */
  method PlotPredictions(start: nat, pattern: seq<seq<nat>>, predictions: seq<seq<nat>>, count: nat, peaks: map<nat, nat>)
    returns (drawn: seq<seq<(nat, nat)>>)
    requires forall i :: 0 <= i < |predictions| && i < count ==> Chooses(pattern, predictions[i])
    requires forall i :: 0 <= i < |predictions| && i < count ==> Sum(Deltas(pattern, predictions[i])) <= start
    ensures |drawn| <= count && |drawn| <= |predictions|
    ensures |drawn| == if count < |predictions| then count else |predictions|
    ensures forall k :: 0 <= k < |drawn| ==>
      drawn[k] == Series(start, Deltas(pattern, predictions[|drawn| - 1 - k]), peaks)
  {
    var n := if count < |predictions| then count else |predictions|;
    drawn := [];
    var i := n;
    while i > 0
      invariant 0 <= i <= n
      invariant |drawn| == n - i
      invariant forall k :: 0 <= k < |drawn| ==> drawn[k] == Series(start, Deltas(pattern, predictions[n - 1 - k]), peaks)
    {
      i := i - 1;
      var series := Walk(start, pattern, predictions[i], peaks);
      drawn := drawn + [series];
    }
  }

  // The additive Cartesian-product scoring of `test2`.

  /** `pattern.iter().map(Vec::len)`: one dimension per step, sized by its candidate count. */
  function Shape(pattern: seq<seq<nat>>): (r: seq<nat>)
    ensures |r| == |pattern|
    ensures forall i :: 0 <= i < |r| ==> r[i] == |pattern[i]|
  {
    seq(|pattern|, i requires 0 <= i < |pattern| => |pattern[i]|)
  }

  /** `index` is a point of an array of the given shape. */
  predicate InShape(index: seq<nat>, shape: seq<nat>)
  {
    |index| == |shape| && forall j :: 0 <= j < |index| ==> index[j] < shape[j]
  }

  /** Number of points of an array of the given shape. */
  function Product(shape: seq<nat>): nat
    decreases |shape|
  {
    if shape == [] then 1 else Product(shape[..|shape| - 1]) * shape[|shape| - 1]
  }

  /** Every extension `p + [d]` with `d < k`, for each `p` in turn. */
  function Extend(points: seq<seq<nat>>, k: nat): (r: seq<seq<nat>>)
    ensures |r| == |points| * k
    decreases |points|
  {
    if points == [] then []
    else seq(k, d => points[0] + [d]) + Extend(points[1..], k)
  }

  /**
   * The points of an array of the given shape in row-major order, as `from_shape_fn`
   * visits them; there is one point per combination of candidate indices.
   */
  function Points(shape: seq<nat>): (r: seq<seq<nat>>)
    ensures |r| == Product(shape)
    decreases |shape|
  {
    if shape == [] then [[]] else Extend(Points(shape[..|shape| - 1]), shape[|shape| - 1])
  }

  lemma {:induction false} ExtendMembers(points: seq<seq<nat>>, k: nat, q: seq<nat>)
    ensures q in Extend(points, k) <==> |q| > 0 && q[..|q| - 1] in points && q[|q| - 1] < k
    decreases |points|
  {
    if points != [] {
      ExtendMembers(points[1..], k, q);
      var here := seq(k, d => points[0] + [d]);
      assert q in Extend(points, k) <==> q in here || q in Extend(points[1..], k);
      if |q| > 0 && q[..|q| - 1] == points[0] && q[|q| - 1] < k {
        assert here[q[|q| - 1]] == q;
      }
      if q in here {
        var d :| 0 <= d < k && here[d] == q;
        assert q[..|q| - 1] == points[0];
      }
    }
  }

  /** Fitting a shape, one dimension at a time. */
  lemma InShapeStep(index: seq<nat>, shape: seq<nat>)
    requires shape != []
    ensures InShape(index, shape) <==>
      |index| > 0 && InShape(index[..|index| - 1], shape[..|shape| - 1]) && index[|index| - 1] < shape[|shape| - 1]
  {
  }

  /** An index vector is a point of the search space exactly when it fits the shape. */
  lemma {:induction false} PointsMembers(shape: seq<nat>, index: seq<nat>)
    ensures index in Points(shape) <==> InShape(index, shape)
    decreases |shape|
  {
    if shape != [] {
      var n := |shape|;
      var init := shape[..n - 1];
      assert Points(shape) == Extend(Points(init), shape[n - 1]);
      ExtendMembers(Points(init), shape[n - 1], index);
      InShapeStep(index, shape);
      if |index| > 0 {
        PointsMembers(init, index[..|index| - 1]);
      }
    } else {
      assert index in [[]] <==> index == [];
    }
  }


  /** The score `test2` gives a walk: the intensities at the successively decremented masses, added up. */
  function PathScore(intensities: seq<nat>, start: nat, deltas: seq<nat>): nat
    requires Sum(deltas) <= start < |intensities|
    decreases |deltas|
  {
    if deltas == [] then 0
    else
      PrefixSumBounded(deltas, |deltas| - 1);
      PathScore(intensities, start, deltas[..|deltas| - 1]) + intensities[start - Sum(deltas)]
  }

  /** The intensities at the masses a walk visits, in step order. */
  function VisitedIntensities(intensities: seq<nat>, start: nat, deltas: seq<nat>): seq<nat>
    requires Sum(deltas) <= start < |intensities|
  {
    seq(|deltas|, j requires 0 <= j < |deltas| => intensities[MassAt(start, deltas, j)])
  }

  /** The masses of a walk do not depend on the steps after them. */
  lemma MassAtOfPrefix(start: nat, deltas: seq<nat>, p: nat, j: nat)
    requires j < p <= |deltas| && Sum(deltas) <= start
    ensures Sum(deltas[..p]) <= start
    ensures MassAt(start, deltas[..p], j) == MassAt(start, deltas, j)
  {
    PrefixSumBounded(deltas, p);
    assert deltas[..p][..j + 1] == deltas[..j + 1];
  }

  /** The `test2` score of a walk is the sum of the intensities at the masses it visits. */
  lemma {:induction false} PathScoreIsVisitedSum(intensities: seq<nat>, start: nat, deltas: seq<nat>)
    requires Sum(deltas) <= start < |intensities|
    ensures PathScore(intensities, start, deltas) == Sum(VisitedIntensities(intensities, start, deltas))
    decreases |deltas|
  {
    if deltas != [] {
      var n := |deltas|;
      var init := deltas[..n - 1];
      PrefixSumBounded(deltas, n - 1);
      PathScoreIsVisitedSum(intensities, start, init);
      var visited := VisitedIntensities(intensities, start, deltas);
      var before := VisitedIntensities(intensities, start, init);
      forall j | 0 <= j < n - 1
        ensures visited[j] == before[j]
      {
        MassAtOfPrefix(start, deltas, n - 1, j);
      }
      assert visited[..n - 1] == before;
      assert deltas[..n] == deltas;
      assert visited[n - 1] == intensities[start - Sum(deltas)];
    }
  }


  /**
   * The closure `test2` hands to `from_shape_fn`: walk down from `start` by the delta
   * each step's index picks (`m -= dm` panics on underflow, `intensities[m]` out of
   * range) and add the intensities up.
   */
  method ScorePoint(intensities: seq<nat>, start: nat, pattern: seq<seq<nat>>, index: seq<nat>)
    returns (intensity: nat)
    requires InShape(index, Shape(pattern))
    requires Sum(Deltas(pattern, index)) <= start < |intensities|
    ensures intensity == PathScore(intensities, start, Deltas(pattern, index))
  {
    ghost var deltas := Deltas(pattern, index);
    var m: nat := start;
    intensity := 0;
    var j := 0;
    while j < |index|
      invariant 0 <= j <= |index|
      invariant m + Sum(deltas[..j]) == start
      invariant intensity == PathScore(intensities, start, deltas[..j])
    {
      var dm := pattern[j][index[j]];
      PrefixSumBounded(deltas, j + 1);
      assert deltas[..j + 1][..j] == deltas[..j];
      m := m - dm;
      intensity := intensity + intensities[m];
      j := j + 1;
    }
    assert deltas[..j] == deltas;
  }

  /** `ArrayD::from_shape_fn(shape, ...)` of `test2`: one score per point of the search space. */
  method ScoreSpace(intensities: seq<nat>, start: nat, pattern: seq<seq<nat>>) returns (scores: seq<nat>)
    requires start < |intensities|
    requires forall index :: InShape(index, Shape(pattern)) ==> Sum(Deltas(pattern, index)) <= start
    ensures |scores| == Product(Shape(pattern))
    ensures forall i :: 0 <= i < |scores| ==>
      InShape(Points(Shape(pattern))[i], Shape(pattern)) &&
      scores[i] == PathScore(intensities, start, Deltas(pattern, Points(Shape(pattern))[i]))
  {
    var points := Points(Shape(pattern));
    scores := [];
    var i := 0;
    while i < |points|
      invariant 0 <= i <= |points|
      invariant |scores| == i
      invariant forall k :: 0 <= k < i ==>
        InShape(points[k], Shape(pattern)) &&
        scores[k] == PathScore(intensities, start, Deltas(pattern, points[k]))
    {
      PointsMembers(Shape(pattern), points[i]);
      var score := ScorePoint(intensities, start, pattern, points[i]);
      scores := scores + [score];
      i := i + 1;
    }
  }

  // The pattern editing of the "Finder" panel. `massEnd` is `self.bounds.mass.end()`,
  // the upper end of the range every delta's `DragValue` is clamped to.

  /**
   * What happened on one step's row in a frame: the "-" button, the values its
   * candidates' `DragValue`s were dragged to (by candidate index), the "+" button and
   * the repeat button.
   */
  datatype StepClicks = StepClicks(minus: bool, drags: map<nat, nat>, plus: bool, repeat: bool)

  /** A frame in which nothing on the step rows was clicked or dragged. */
  function NoClicks(n: nat): (r: seq<StepClicks>)
    ensures |r| == n && forall i :: 0 <= i < n ==> r[i] == StepClicks(false, map[], false, false)
  {
    seq(n, _ => StepClicks(false, map[], false, false))
  }

  /** `clamp_range(0..=massEnd)` applied to a dragged value. */
  function Clamp(v: nat, massEnd: nat): (r: nat)
    ensures r <= massEnd && r <= v
    ensures v <= massEnd ==> r == v
  {
    if v <= massEnd then v else massEnd
  }

  /**
   * A step after its candidates' drags: a dragged candidate takes its dragged value,
   * clamped, every other candidate keeps its delta, and the length does not change.
   */
  function Dragged(step: seq<nat>, drags: map<nat, nat>, massEnd: nat): (r: seq<nat>)
    ensures |r| == |step|
  {
    seq(|step|, k requires 0 <= k < |step| => if k in drags then Clamp(drags[k], massEnd) else step[k])
  }

  /** Candidate by candidate: a dragged one lies within `0..=massEnd`, an undragged one is as it was. */
  lemma DraggedCandidates(step: seq<nat>, drags: map<nat, nat>, massEnd: nat, k: nat)
    requires k < |step|
    ensures k in drags ==> Dragged(step, drags, massEnd)[k] == Clamp(drags[k], massEnd) <= massEnd
    ensures k !in drags ==> Dragged(step, drags, massEnd)[k] == step[k]
  {
  }

  /** With nothing dragged the step is unchanged. */
  lemma DraggedNothing(step: seq<nat>, massEnd: nat)
    ensures Dragged(step, map[], massEnd) == step
  {
    forall k | 0 <= k < |step|
      ensures Dragged(step, map[], massEnd)[k] == step[k]
    {
      DraggedCandidates(step, map[], massEnd, k);
    }
  }

  /** A row with no events: its step survives unchanged. */
  lemma QuietRow(step: seq<nat>, massEnd: nat)
    ensures Survives(step, StepClicks(false, map[], false, false), massEnd)
    ensures EditStep(step, StepClicks(false, map[], false, false), massEnd) == step
  {
    DraggedNothing(step, massEnd);
  }

  /**
   * A step after its row's events: "-" pops its last delta and ends the row's closure
   * before any drag; otherwise the drags apply and then "+" pushes a 0.
   */
  function EditStep(step: seq<nat>, c: StepClicks, massEnd: nat): seq<nat>
  {
    if c.minus then (if step == [] then [] else step[..|step| - 1])
    else
      var d := Dragged(step, c.drags, massEnd);
      if c.plus then d + [0] else d
  }

  /** `retain_mut`'s verdict: a step survives unless "-" left it empty. */
  predicate Survives(step: seq<nat>, c: StepClicks, massEnd: nat)
  {
    !c.minus || EditStep(step, c, massEnd) != []
  }

  /** The steps `retain_mut` keeps, edited, in their order. */
  function Retained(pattern: seq<seq<nat>>, clicks: seq<StepClicks>, massEnd: nat): seq<seq<nat>>
    requires |clicks| == |pattern|
    decreases |pattern|
  {
    if pattern == [] then []
    else
      var n := |pattern| - 1;
      Retained(pattern[..n], clicks[..n], massEnd)
        + (if Survives(pattern[n], clicks[n], massEnd) then [EditStep(pattern[n], clicks[n], massEnd)] else [])
  }

  /** The step the repeat button captured, if any: the last clicked row not popped, as dragged and edited by "+". */
  function Repeated(pattern: seq<seq<nat>>, clicks: seq<StepClicks>, massEnd: nat): Option<seq<nat>>
    requires |clicks| == |pattern|
    decreases |pattern|
  {
    if pattern == [] then None
    else
      var n := |pattern| - 1;
      if !clicks[n].minus && clicks[n].repeat then Some(EditStep(pattern[n], clicks[n], massEnd))
      else Repeated(pattern[..n], clicks[..n], massEnd)
  }

  /** The pattern after one frame of edits: the retained steps, then the new `[0]` step, then the repeat. */
  function Edited(pattern: seq<seq<nat>>, clicks: seq<StepClicks>, addStep: bool, massEnd: nat): seq<seq<nat>>
    requires |clicks| == |pattern|
  {
    Retained(pattern, clicks, massEnd)
      + (if addStep then [[0]] else [])
      + (match Repeated(pattern, clicks, massEnd) case Some(step) => [step] case None => [])
  }

  /** Every step of the pattern has at least one candidate. */
  predicate StepsNonEmpty(pattern: seq<seq<nat>>)
  {
    forall i :: 0 <= i < |pattern| ==> pattern[i] != []
  }

  lemma {:induction false} RetainedNonEmpty(pattern: seq<seq<nat>>, clicks: seq<StepClicks>, massEnd: nat)
    requires |clicks| == |pattern| && StepsNonEmpty(pattern)
    ensures StepsNonEmpty(Retained(pattern, clicks, massEnd))
    decreases |pattern|
  {
    if pattern != [] {
      var n := |pattern| - 1;
      RetainedNonEmpty(pattern[..n], clicks[..n], massEnd);
    }
  }

  lemma {:induction false} RepeatedNonEmpty(pattern: seq<seq<nat>>, clicks: seq<StepClicks>, massEnd: nat)
    requires |clicks| == |pattern| && StepsNonEmpty(pattern)
    ensures Repeated(pattern, clicks, massEnd).Some? ==> Repeated(pattern, clicks, massEnd).value != []
    decreases |pattern|
  {
    if pattern != [] {
      var n := |pattern| - 1;
      RepeatedNonEmpty(pattern[..n], clicks[..n], massEnd);
    }
  }

  /** The edits keep every step non-empty. */
  lemma EditedNonEmpty(pattern: seq<seq<nat>>, clicks: seq<StepClicks>, addStep: bool, massEnd: nat)
    requires |clicks| == |pattern| && StepsNonEmpty(pattern)
    ensures StepsNonEmpty(Edited(pattern, clicks, addStep, massEnd))
  {
    RetainedNonEmpty(pattern, clicks, massEnd);
    RepeatedNonEmpty(pattern, clicks, massEnd);
  }

  lemma {:induction false} RetainedUntouched(pattern: seq<seq<nat>>, massEnd: nat)
    ensures Retained(pattern, NoClicks(|pattern|), massEnd) == pattern
    ensures Repeated(pattern, NoClicks(|pattern|), massEnd) == None
    decreases |pattern|
  {
    if pattern != [] {
      var n := |pattern| - 1;
      assert NoClicks(|pattern|)[..n] == NoClicks(n);
      RetainedUntouched(pattern[..n], massEnd);
      QuietRow(pattern[n], massEnd);
    }
  }

  /** Replacing element `i` by `row`, then appending, equals replacing it in the longer sequence. */
  lemma SpliceSnoc<T>(pattern: seq<T>, i: nat, row: seq<T>)
    requires i < |pattern|
    ensures var n := |pattern| - 1;
      (if i < n then (pattern[..n][..i] + row + pattern[..n][i + 1..]) + [pattern[n]] else pattern[..n] + row)
      == pattern[..i] + row + pattern[i + 1..]
  {
    var n := |pattern| - 1;
    if i < n {
      assert pattern[..n][..i] == pattern[..i];
      assert pattern[..n][i + 1..] == pattern[i + 1..n];
      assert pattern[i + 1..] == pattern[i + 1..n] + [pattern[n]];
    } else {
      assert pattern[i + 1..] == [];
    }
  }

  /** Events on row `i` only: the rows before and after it pass through unchanged. */
  lemma {:induction false} RetainedOneRow(pattern: seq<seq<nat>>, i: nat, c: StepClicks, massEnd: nat)
    requires i < |pattern|
    ensures Retained(pattern, NoClicks(|pattern|)[i := c], massEnd) ==
      pattern[..i] + (if Survives(pattern[i], c, massEnd) then [EditStep(pattern[i], c, massEnd)] else []) + pattern[i + 1..]
    decreases |pattern|
  {
    var n := |pattern| - 1;
    var clicks := NoClicks(|pattern|)[i := c];
    var row := if Survives(pattern[i], c, massEnd) then [EditStep(pattern[i], c, massEnd)] else [];
    if i < n {
      assert clicks[..n] == NoClicks(n)[i := c];
      QuietRow(pattern[n], massEnd);
      RetainedOneRow(pattern[..n], i, c, massEnd);
    } else {
      assert clicks[..n] == NoClicks(n);
      RetainedUntouched(pattern[..n], massEnd);
    }
    SpliceSnoc(pattern, i, row);
  }

  /** Events on row `i` only: the repeat button captures that row, as edited, or nothing. */
  lemma {:induction false} RepeatedOneRow(pattern: seq<seq<nat>>, i: nat, c: StepClicks, massEnd: nat)
    requires i < |pattern|
    ensures Repeated(pattern, NoClicks(|pattern|)[i := c], massEnd) ==
      if !c.minus && c.repeat then Some(EditStep(pattern[i], c, massEnd)) else None
    decreases |pattern|
  {
    var n := |pattern| - 1;
    var clicks := NoClicks(|pattern|)[i := c];
    if i < n {
      assert clicks[..n] == NoClicks(n)[i := c];
      RepeatedOneRow(pattern[..n], i, c, massEnd);
    } else {
      assert clicks[..n] == NoClicks(n);
      RetainedUntouched(pattern[..n], massEnd);
    }
  }

  /** The add-step button alone appends the step `[0]`. */
  lemma AddStepAppendsZero(pattern: seq<seq<nat>>, massEnd: nat)
    ensures Edited(pattern, NoClicks(|pattern|), true, massEnd) == pattern + [[0]]
  {
    RetainedUntouched(pattern, massEnd);
  }

  /** Drags alone on row `i` set the dragged candidates of that step, clamped, and nothing else. */
  lemma DragSetsCandidates(pattern: seq<seq<nat>>, i: nat, drags: map<nat, nat>, massEnd: nat)
    requires i < |pattern|
    ensures Edited(pattern, NoClicks(|pattern|)[i := StepClicks(false, drags, false, false)], false, massEnd) ==
      pattern[i := Dragged(pattern[i], drags, massEnd)]
  {
    RetainedOneRow(pattern, i, StepClicks(false, drags, false, false), massEnd);
    RepeatedOneRow(pattern, i, StepClicks(false, drags, false, false), massEnd);
  }

  /** "+" on row `i`, after any drags there, pushes a 0 onto the dragged step. */
  lemma PlusPushesZero(pattern: seq<seq<nat>>, i: nat, drags: map<nat, nat>, massEnd: nat)
    requires i < |pattern|
    ensures Edited(pattern, NoClicks(|pattern|)[i := StepClicks(false, drags, true, false)], false, massEnd) ==
      pattern[i := Dragged(pattern[i], drags, massEnd) + [0]]
    ensures drags == map[] ==>
      Edited(pattern, NoClicks(|pattern|)[i := StepClicks(false, drags, true, false)], false, massEnd) ==
      pattern[i := pattern[i] + [0]]
  {
    RetainedOneRow(pattern, i, StepClicks(false, drags, true, false), massEnd);
    RepeatedOneRow(pattern, i, StepClicks(false, drags, true, false), massEnd);
    DraggedNothing(pattern[i], massEnd);
  }

  /**
   * Repeat on row `i`, after any drags there, appends a copy of the dragged step and
   * leaves the dragged step in place; with no drags that is a copy of the step itself.
   */
  lemma RepeatAppendsCopy(pattern: seq<seq<nat>>, i: nat, drags: map<nat, nat>, massEnd: nat)
    requires i < |pattern|
    ensures Edited(pattern, NoClicks(|pattern|)[i := StepClicks(false, drags, false, true)], false, massEnd) ==
      pattern[i := Dragged(pattern[i], drags, massEnd)] + [Dragged(pattern[i], drags, massEnd)]
    ensures drags == map[] ==>
      Edited(pattern, NoClicks(|pattern|)[i := StepClicks(false, drags, false, true)], false, massEnd) ==
      pattern + [pattern[i]]
  {
    var d := Dragged(pattern[i], drags, massEnd);
    RetainedOneRow(pattern, i, StepClicks(false, drags, false, true), massEnd);
    RepeatedOneRow(pattern, i, StepClicks(false, drags, false, true), massEnd);
    assert pattern[..i] + [d] + pattern[i + 1..] == pattern[i := d];
    DraggedNothing(pattern[i], massEnd);
  }

  /**
   * "-" on row `i` pops its last delta, and removes the step when that was its last
   * one, whatever else was clicked or dragged on that row.
   */
  lemma MinusPopsOrRemoves(pattern: seq<seq<nat>>, i: nat, c: StepClicks, massEnd: nat)
    requires i < |pattern| && pattern[i] != [] && c.minus
    ensures Edited(pattern, NoClicks(|pattern|)[i := c], false, massEnd) ==
      if |pattern[i]| == 1 then pattern[..i] + pattern[i + 1..]
      else pattern[i := pattern[i][..|pattern[i]| - 1]]
  {
    RetainedOneRow(pattern, i, c, massEnd);
    RepeatedOneRow(pattern, i, c, massEnd);
  }

  /** The `DragValue` loop over one step's candidates, `for variant in step.iter_mut()`. */
  method DragRow(step: seq<nat>, drags: map<nat, nat>, massEnd: nat) returns (r: seq<nat>)
    ensures r == Dragged(step, drags, massEnd)
  {
    r := step;
    var k := 0;
    while k < |r|
      invariant 0 <= k <= |r| == |step|
      invariant forall j :: 0 <= j < k ==> r[j] == Dragged(step, drags, massEnd)[j]
      invariant forall j :: k <= j < |r| ==> r[j] == step[j]
    {
      if k in drags {
        r := r[k := Clamp(drags[k], massEnd)];
      }
      k := k + 1;
    }
  }

  /** The pattern being edited in the "Finder" panel (`App::pattern`). */
  class PatternEditor {
    var pattern: seq<seq<nat>>

    /** The empty pattern of `App::default`. */
    constructor ()
      ensures pattern == []
    {
      pattern := [];
    }

    /**
     * One frame of the panel: `retain_mut` over the rows, then the add-step button, then
     * the captured repeat.
     */
    method EditFrame(clicks: seq<StepClicks>, addStep: bool, massEnd: nat)
      requires |clicks| == |pattern|
      modifies this
      ensures pattern == Edited(old(pattern), clicks, addStep, massEnd)
      ensures old(StepsNonEmpty(pattern)) ==> StepsNonEmpty(pattern)
    {
      ghost var before := pattern;
      var kept: seq<seq<nat>> := [];
      var repeat: Option<seq<nat>> := None;
      var i := 0;
      while i < |pattern|
        invariant 0 <= i <= |pattern| && pattern == before
        invariant kept == Retained(pattern[..i], clicks[..i], massEnd)
        invariant repeat == Repeated(pattern[..i], clicks[..i], massEnd)
      {
        assert pattern[..i + 1][..i] == pattern[..i] && clicks[..i + 1][..i] == clicks[..i];
        var step := pattern[i];
        if clicks[i].minus {
          if step != [] {
            step := step[..|step| - 1];
          }
          if step != [] {
            kept := kept + [step];
          }
        } else {
          step := DragRow(step, clicks[i].drags, massEnd);
          if clicks[i].plus {
            step := step + [0];
          }
          if clicks[i].repeat {
            repeat := Some(step);
          }
          kept := kept + [step];
        }
        i := i + 1;
      }
      assert pattern[..i] == pattern && clicks[..i] == clicks;
      pattern := kept;
      if addStep {
        pattern := pattern + [[0]];
      }
      if repeat.Some? {
        pattern := pattern + [repeat.value];
      }
      if StepsNonEmpty(before) {
        EditedNonEmpty(before, clicks, addStep, massEnd);
      }
    }
  }
}
