/**
 * The file list of `App` in src/app.rs (the older revision of the application): the loaded
 * files keyed by name, the set of names the user has unticked, and the two fields derived
 * from them, `filtered` (the positions of the files still shown) and `max` (the largest
 * intensity among the shown files, by which plots are normalised).
 */
module AppFiles {
  import opened IndexMaps
  import opened HigherOrder
  import opened Maxima
  import Parser

  /** `IndexMap<String, ParsedFile>`, in insertion order. */
  type Files = seq<(string, Parser.File)>

  /** The closure of `App::filter`: a file is shown when its key is not in `filter`. */
  function Shown(filter: set<string>): (nat, (string, Parser.File)) -> bool
  {
    (i: nat, file: (string, Parser.File)) => file.0 !in filter
  }

  /** `files.iter().enumerate().filter_map(..).collect()`: the positions of the shown files. */
  function Filtered(files: Files, filter: set<string>): seq<nat>
  {
    KeptPositions(files, Shown(filter))
  }

  /**
   * `filtered` lists exactly the positions whose key is not excluded, in increasing order,
   * each a valid index into `files`.
   */
  lemma FilteredExact(files: Files, filter: set<string>)
    ensures forall k :: 0 <= k < |Filtered(files, filter)| ==> Filtered(files, filter)[k] < |files|
    ensures forall k, l :: 0 <= k < l < |Filtered(files, filter)| ==> Filtered(files, filter)[k] < Filtered(files, filter)[l]
    ensures forall i: nat :: i in Filtered(files, filter) <==> i < |files| && files[i].0 !in filter
  {
    KeptPositionsExact(files, Shown(filter));
  }

  predicate InRange(files: Files, positions: seq<nat>)
  {
    forall k :: 0 <= k < |positions| ==> positions[k] < |files|
  }

  /** `positions.iter().flat_map(|&index| files[index].peaks.values())`. */
  function Intensities(files: Files, positions: seq<nat>): seq<nat>
    requires InRange(files, positions)
    decreases |positions|
  {
    if positions == [] then []
    else
      var n := |positions| - 1;
      Intensities(files, positions[..n]) + Values(files[positions[n]].1.peaks)
  }

  /** `v` is an intensity of the file at position `i`. */
  predicate IntensityOf(files: Files, i: nat, v: nat)
  {
    i < |files| && v in Values(files[i].1.peaks)
  }

  /** `v` is an intensity of a file at one of `positions`. */
  ghost predicate AtSomePosition(files: Files, positions: seq<nat>, v: nat)
  {
    exists k :: 0 <= k < |positions| && IntensityOf(files, positions[k], v)
  }

  /** The flattened intensities are exactly those of the files at the listed positions. */
  lemma {:induction false} IntensitiesMembers(files: Files, positions: seq<nat>, v: nat)
    requires InRange(files, positions)
    ensures v in Intensities(files, positions) <==> AtSomePosition(files, positions, v)
    decreases |positions|
  {
    if positions != [] {
      var n := |positions| - 1;
      var init := positions[..n];
      var last := Values(files[positions[n]].1.peaks);
      assert InRange(files, init);
      IntensitiesMembers(files, init, v);
      assert Intensities(files, positions) == Intensities(files, init) + last;
      if v in Intensities(files, init) {
        var k :| 0 <= k < |init| && IntensityOf(files, init[k], v);
        assert positions[k] == init[k];
      }
      if AtSomePosition(files, positions, v) {
        var k :| 0 <= k < |positions| && IntensityOf(files, positions[k], v);
        if k < n {
          assert init[k] == positions[k];
          assert AtSomePosition(files, init, v);
        }
      }
    }
  }

  /** `.max().copied().unwrap_or(1)`. */
  function MaxOrOne(xs: seq<nat>): (r: nat)
    ensures forall j :: 0 <= j < |xs| ==> xs[j] <= r
    ensures xs == [] ==> r == 1
  {
    if xs == [] then 1 else Largest(xs)
  }

  /** The value `App::max` stores for the given files and filter. */
  function MaxIntensity(files: Files, filter: set<string>): nat
  {
    FilteredExact(files, filter);
    MaxOrOne(Intensities(files, Filtered(files, filter)))
  }

  /** `v` is an intensity of a file that is shown. */
  ghost predicate ShownIntensity(files: Files, filter: set<string>, v: nat)
  {
    exists i: nat :: i < |files| && IntensityOf(files, i, v) && files[i].0 !in filter
  }

  /** The flattened intensities of the shown files are exactly the shown intensities. */
  lemma ShownIntensities(files: Files, filter: set<string>, v: nat)
    ensures InRange(files, Filtered(files, filter))
    ensures v in Intensities(files, Filtered(files, filter)) <==> ShownIntensity(files, filter, v)
  {
    var positions := Filtered(files, filter);
    FilteredExact(files, filter);
    IntensitiesMembers(files, positions, v);
    if ShownIntensity(files, filter, v) {
      var i: nat :| i < |files| && IntensityOf(files, i, v) && files[i].0 !in filter;
      assert i in positions;
      var k :| 0 <= k < |positions| && positions[k] == i;
    }
  }

  /**
   * `max` is at least every intensity of every shown file; it is one of them when there is
   * one, and 1 when there is none.
   */
  lemma MaxIntensityBounds(files: Files, filter: set<string>)
    ensures forall v: nat :: ShownIntensity(files, filter, v) ==> v <= MaxIntensity(files, filter)
    ensures (exists v: nat :: ShownIntensity(files, filter, v)) ==> ShownIntensity(files, filter, MaxIntensity(files, filter))
    ensures (forall v: nat :: !ShownIntensity(files, filter, v)) ==> MaxIntensity(files, filter) == 1
  {
    FilteredExact(files, filter);
    var xs := Intensities(files, Filtered(files, filter));
    var m := MaxIntensity(files, filter);
    forall v | ShownIntensity(files, filter, v)
      ensures v <= m
    {
      ShownIntensities(files, filter, v);
      var j :| 0 <= j < |xs| && xs[j] == v;
    }
    if xs != [] {
      LargestIn(xs);
      ShownIntensities(files, filter, m);
    } else {
      forall v: nat
        ensures !ShownIntensity(files, filter, v)
      {
        ShownIntensities(files, filter, v);
      }
    }
  }

  /** Positions at which `f` gives the same answer for `xs` and `ys` are kept alike. */
  lemma {:induction false} KeptPositionsAgree<T>(xs: seq<T>, ys: seq<T>, f: (nat, T) -> bool)
    requires |xs| == |ys|
    requires forall i :: 0 <= i < |xs| ==> f(i, xs[i]) == f(i, ys[i])
    ensures KeptPositions(xs, f) == KeptPositions(ys, f)
    decreases |xs|
  {
    if xs != [] {
      var n := |xs| - 1;
      forall i | 0 <= i < n
        ensures f(i, xs[..n][i]) == f(i, ys[..n][i])
      {
        assert xs[..n][i] == xs[i] && ys[..n][i] == ys[i];
      }
      KeptPositionsAgree(xs[..n], ys[..n], f);
    }
  }

  /** The intensities read at `positions` only depend on the files at those positions. */
  lemma {:induction false} IntensitiesAgree(files: Files, others: Files, positions: seq<nat>)
    requires InRange(files, positions) && InRange(others, positions)
    requires forall k :: 0 <= k < |positions| ==> files[positions[k]] == others[positions[k]]
    ensures Intensities(files, positions) == Intensities(others, positions)
    decreases |positions|
  {
    if positions != [] {
      var n := |positions| - 1;
      assert forall k :: 0 <= k < n ==> positions[..n][k] == positions[k];
      IntensitiesAgree(files, others, positions[..n]);
    }
  }

  /**
   * An excluded file does not count: replacing it by another excluded file (such as the same
   * name with other peaks) changes neither `filtered` nor `max`.
   */
  lemma ExcludedFileIgnored(files: Files, filter: set<string>, j: nat, file: (string, Parser.File))
    requires j < |files| && files[j].0 in filter && file.0 in filter
    ensures Filtered(files[j := file], filter) == Filtered(files, filter)
    ensures MaxIntensity(files[j := file], filter) == MaxIntensity(files, filter)
  {
    var others := files[j := file];
    KeptPositionsAgree(files, others, Shown(filter));
    var positions := Filtered(files, filter);
    FilteredExact(files, filter);
    forall k | 0 <= k < |positions|
      ensures files[positions[k]] == others[positions[k]]
    {
      assert positions[k] in positions;
    }
    IntensitiesAgree(files, others, positions);
  }

  /** The application state of src/app.rs that `update` maintains. */
  class App {
    var files: Files
    var filter: set<string>
    var filtered: seq<nat>
    var max: nat

    /** `App::filter`. */
    method Filter()
      modifies this
      ensures filtered == Filtered(files, filter)
      ensures files == old(files) && filter == old(filter) && max == old(max)
    {
      var excluded := filter;
      filtered := KeptPositions(files, Shown(excluded));
    }

    /**
     * `App::max`, over the positions in `filtered`; indexing `files` by a stale position
     * panics in the source, so the positions must be valid.
     */
    method Max()
      requires InRange(files, filtered)
      modifies this
      ensures files == old(files) && filter == old(filter) && filtered == old(filtered)
      ensures max == MaxOrOne(Intensities(files, filtered))
    {
      max := MaxOrOne(Intensities(files, filtered));
    }

    /** `App::update`: `filtered` first, so that `max` reads the new filter. */
    method Update()
      modifies this
      ensures filtered == Filtered(files, filter)
      ensures max == MaxIntensity(files, filter)
      ensures files == old(files) && filter == old(filter)
    {
      Filter();
      FilteredExact(files, filter);
      Max();
    }
  }
}
