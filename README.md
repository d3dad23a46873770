# msp: a Dafny model of the viewer's sequence logic

msp is a desktop viewer for mass-spectrometry peak lists (`.msp` files). Under its user
interface sit a few small pieces of integer and sequence logic, and this project models them:

- the `.msp` parser (`Name:` line, optional `DB#:` line, `Num Peaks: N`, N mass/intensity
  pairs collected into an insertion-ordered map);
- the bound filter `Bounder::compute` over a dense intensity sequence indexed by mass, with
  the `Bound` helpers and the application's `Bounds` settings;
- the mass walks: `Predictioner::compute` (saturating steps, product score, early exit), the
  walk that `plot` draws for each prediction, and the additive scoring of the `test2` test
  over the Cartesian product of a pattern's candidates;
- the pattern edits of the "Finder" panel;
- the supporting utilities: character-count truncation, the counting `retain` predicates,
  the axis permutation and axis sort of an array, the gap filling of `maximums` and the
  sparse-to-dense fold of its test, the older `App` bookkeeping of `filtered` and `max`, and
  the labels of dropped and hovered files.

Every integer is a Dafny `nat`. An `IndexMap<u64, u64>` is a sequence of (key, value)
entries with distinct keys (module `IndexMaps`). State that the source updates in place
becomes a class: the peak map of `maximums` (`Temp.PeakMap`), the counters of the `retain`
closures (`HigherOrder.Temp`, `Index`, `WithIndex`), the permutation vector
(`NdArrays.Permutation`), the pattern (`AppFinder.PatternEditor`) and the `App` fields
(`AppFiles.App`). Pure code becomes functions, and what the source promises is proved as
`ensures` clauses and lemmas.

The model follows the code as written:

- the loop at src/utils/temp.rs:51-54 never advances its counter, unlike the commented-out
  loop in the test at src/utils/temp.rs:151-155, which advances `key` after each
  `or_default` (see Findings);
- `name` keeps blanks before the line ending as part of the name, because `not_line_ending`
  has already consumed them when the trailing `multiwhitespace` runs;
- `db` yields `None` and leaves the input untouched on any error inside the `DB#:` line,
  not only when the tag is missing, because `opt` recovers every `Error`.

## Model

| member | source | states |
|---|---|---|
| BoundExt.Value | src/utils/bound.rs:12-18 | `Some` exactly for `Included` and `Excluded`, carrying the bound's value; `None` for `Unbounded` |
| BoundExt.VariantName | src/utils/bound.rs:20-26 | the name is "Included", "Excluded" or "Unbounded" exactly when the bound is that variant |
| BoundExt.ValueNoneIffUnboundedName | src/utils/bound.rs:12-26 | `value` is `None` exactly when `variant_name` is "Unbounded" |
| BoundExt.Start | src/utils/bound.rs:36-41 | the start bound's value whether it is closed or open, and 0 (`T::MIN` of an unsigned type) when unbounded |
| BoundExt.End | src/utils/bound.rs:43-48 | the end bound's value whether it is closed or open, and the type's maximum when unbounded |
| BoundExt.ContainedBetweenStartAndEnd | src/utils/bound.rs:36-48 | every value a range contains lies between `start()` and `end()` |
| BoundExt.WiderFromAdmits | src/app/bounder.rs:18-19 | a wider lower bound admits every value the narrower one admits |
| BoundExt.WiderUpToAdmits | src/app/bounder.rs:18 | a wider upper bound admits every value the narrower one admits |
| AppBounds.DefaultBounds | src/app/mod.rs:627-634 | both mass bounds and the intensity bound are `Unbounded` |
| AppBounds.ZeroIsIncludedIff | src/app/mod.rs:493 | `zero_is_included` holds exactly when the intensity bound is `Unbounded` or `Included(0)` |
| AppBounds.ZeroIsIncludedByDefault | src/app/mod.rs:493 | under the default bounds zero is included |
| Bounder.Compute | src/app/bounder.rs:13-27 | the output has the input's length; each entry is the input intensity or 0, and never above the input |
| Bounder.KeptIff | src/app/bounder.rs:18-19 | a non-zero intensity is kept exactly when its mass meets both mass bounds and the intensity meets the lower intensity bound; there is no upper intensity limit |
| Bounder.ComputeIdempotent | src/app/bounder.rs:13-27 | filtering twice with the same bounds is filtering once |
| Bounder.ComputeDefaultIsIdentity | src/app/bounder.rs:18-19 | with the default (all `Unbounded`) bounds the filter is the identity |
| Bounder.ComputeWidened | src/app/bounder.rs:18-19 | widening any of the three bounds never zeroes an entry the narrower bounds kept |
| Predictioner.SaturatingSub | src/app/predictioner.rs:15 | the result never exceeds the minuend, and is 0 or the exact difference |
| Predictioner.MassAfterBounded | src/app/predictioner.rs:12-15 | the running mass never rises above the start `len - 1`, so every lookup is in range |
| Predictioner.MassNonIncreasing | src/app/predictioner.rs:15 | the mass after k steps is at most the mass after j steps, for j <= k |
| Predictioner.MassStaysAtZero | src/app/predictioner.rs:15 | once the walk reaches mass 0 it stays at 0 |
| Predictioner.VanishedProductStays | src/app/predictioner.rs:16-19 | once the product is 0 it stays 0, so the early break does not change the result |
| Predictioner.VisitedProductZeroIff | src/app/predictioner.rs:14-20 | the product of the visited intensities is 0 exactly when some visited intensity is 0 |
| Predictioner.ScoreZeroIff | src/app/predictioner.rs:12-21 | the score is 0 exactly when the start intensity or some visited intensity is 0 |
| Predictioner.ScoreOfEmpty | src/app/predictioner.rs:13-21 | with an empty permutation the score is `intensities[len - 1]` |
| Predictioner.Compute | src/app/predictioner.rs:11-22 | requires a non-empty intensity sequence; the loop with its early exit returns the start intensity times the intensity at every visited mass |
| AppFinder.Deltas | src/app/mod.rs:500 | one delta per chosen step, each a candidate of its step |
| AppFinder.Lookup | src/app/mod.rs:503 | a mass absent from the filtered peaks reads as 0; a present one reads its intensity |
| AppFinder.SeriesStepsByDelta | src/app/mod.rs:499-502 | consecutive drawn masses differ by exactly the next chosen delta |
| AppFinder.Walk | src/app/mod.rs:498-504 | requires the chosen deltas to sum to at most the start mass (`usize -=` panics otherwise); point j is the start minus the deltas of steps 0..=j, with its intensity or 0 |
| AppFinder.PlotPredictions | src/app/mod.rs:496-504 | draws min(count, number of predictions) series, the first `count` predictions in reverse order, each the walk of that prediction |
| AppFinder.Shape | src/app/mod.rs:719 | one dimension per step, sized by that step's candidate count |
| AppFinder.Points | src/app/mod.rs:720 | the search space has as many points as the product of the shape |
| AppFinder.PointsMembers | src/app/mod.rs:719-720 | an index vector is a point of the search space exactly when it fits the shape |
| AppFinder.PathScoreIsVisitedSum | src/app/mod.rs:722-727 | the `test2` score of a walk is the sum of the intensities at the successively decremented masses |
| AppFinder.ScorePoint | src/app/mod.rs:722-729 | the loop with `m -= dm` and `intensity += intensities[m]` computes the walk's score; it requires the masses to stay in range, as the source panics otherwise |
| AppFinder.ScoreSpace | src/app/mod.rs:719-731 | one score per point of the shape, each point fitting the shape and scored by its walk |
| AppFinder.RetainedNonEmpty | src/app/mod.rs:234-253 | `retain_mut` keeps only non-empty steps when every step was non-empty |
| AppFinder.RepeatedNonEmpty | src/app/mod.rs:246-248 | a captured repeat is a non-empty step |
| AppFinder.EditedNonEmpty | src/app/mod.rs:234-258 | one frame of edits keeps every step non-empty |
| AppFinder.Clamp | src/app/mod.rs:241 | a dragged value clamped into `0..=end` is at most `end` and at most itself, and is itself when already in range |
| AppFinder.DraggedCandidates | src/app/mod.rs:240-242 | after the drags a dragged candidate holds its clamped value, within `0..=end`, and an undragged one keeps its delta |
| AppFinder.DraggedNothing | src/app/mod.rs:240-242 | with nothing dragged the step is unchanged |
| AppFinder.DragRow | src/app/mod.rs:240-242 | the loop over a step's candidates yields the dragged step |
| AppFinder.QuietRow | src/app/mod.rs:234-252 | a row with no clicks and no drags survives unchanged |
| AppFinder.RetainedUntouched | src/app/mod.rs:234-253 | with no clicks or drags the pattern passes through unchanged and nothing is repeated |
| AppFinder.RetainedOneRow | src/app/mod.rs:234-253 | events on one row change only that row, which stays edited or is removed |
| AppFinder.RepeatedOneRow | src/app/mod.rs:246-248 | events on one row capture that row, as dragged and edited, or nothing |
| AppFinder.AddStepAppendsZero | src/app/mod.rs:254-256 | the add-step button alone appends the step `[0]` |
| AppFinder.DragSetsCandidates | src/app/mod.rs:240-242 | drags alone on a row replace that step by its dragged version and change nothing else |
| AppFinder.PlusPushesZero | src/app/mod.rs:240-245 | "+" on a row pushes 0 onto that step after its drags; with no drags, onto the step itself |
| AppFinder.RepeatAppendsCopy | src/app/mod.rs:240-258 | repeat on a row leaves the dragged step in place and appends a copy of it; with no drags, a copy of the step itself |
| AppFinder.MinusPopsOrRemoves | src/app/mod.rs:236-239 | "-" on a row pops its last delta, and removes the step when that was its only delta, whatever else happened on that row |
| AppFinder.PatternEditor.EditFrame | src/app/mod.rs:233-258 | the new pattern is the retained steps, dragged and edited, then the added `[0]`, then the captured repeat; non-empty steps stay non-empty |
| Decimal.ToDecimal | src/parser.rs:69-71 | the decimal text of a number is a non-empty run of digits |
| Decimal.ValueOfToDecimal | src/parser.rs:69-71 | `str::parse` of the decimal text of `n` reads back `n` |
| IndexMaps.Keys | src/parser.rs:55 | the keys of the map in iteration order |
| IndexMaps.Values | src/app.rs:346 | `values()` yields each entry's value in iteration order |
| IndexMaps.Find | src/parser.rs:55 | the position of the first entry with the key, or `None` exactly when the key is absent |
| IndexMaps.Insert | src/parser.rs:55 | a present key keeps its position and takes the new value; a new key is appended; other lookups are unchanged; keys stay distinct |
| IndexMaps.FirstOccurrencesMembers | src/parser.rs:55 | the keys in order of first occurrence are exactly the keys that occur |
| IndexMaps.CollectProperties | src/parser.rs:55 | `collect()` gives distinct keys in order of first occurrence, each with the value of its last occurrence, and no more keys than pairs |
| IndexMaps.InsertNew | src/utils/temp.rs:49 | inserting an absent key appends its entry |
| IndexMaps.CollectDistinct | src/parser.rs:55 | pairs with distinct keys are collected exactly as they are |
| Parser.Tag | src/parser.rs:25 | `tag` succeeds exactly when the input starts with the tag, and consumes it |
| Parser.Multiwhitespace | src/parser.rs:65-67 | never fails; consumes the longest run of spaces and tabs |
| Parser.MultiwhitespaceOf | src/parser.rs:65-67 | blanks followed by a non-blank are consumed exactly |
| Parser.LineEnding | src/parser.rs:31 | succeeds exactly on `"\n"` or `"\r\n"`, and consumes it |
| Parser.NotLineEnding | src/parser.rs:28 | returns a run free of line-ending characters that stops at the end or at a line ending |
| Parser.NotLineEndingOfLine | src/parser.rs:28 | it stops exactly at the first line ending |
| Parser.NotLineEndingFailsOnLoneReturn | src/parser.rs:28 | a `'\r'` not followed by `'\n'` makes it fail |
| Parser.Digit1 | src/parser.rs:70 | succeeds exactly on a leading digit and takes the whole run of digits |
| Parser.Digit1OfDigits | src/parser.rs:70 | a run of digits before a non-digit is taken exactly |
| Parser.Number | src/parser.rs:69-71 | one or more digits whose value fits the target type; a value above its maximum fails |
| Parser.NumberOfDecimal | src/parser.rs:69-71 | the decimal text of a value that fits parses back to that value |
| Parser.SeparatorUnit | src/parser.rs:59-62 | one separator character or line ending is consumed |
| Parser.SeparatorRun | src/parser.rs:59-62 | the run of separator units stops where no unit follows |
| Parser.Multiseparator | src/parser.rs:58-63 | succeeds exactly when a separator unit follows, and consumes every unit that follows |
| Parser.SeparatorsStopAtDigit | src/parser.rs:58-63 | a digit or the end of input is not a separator |
| Parser.Pair | src/parser.rs:50-53 | a parsed pair holds two `u64` values and consumes input |
| Parser.Pairs | src/parser.rs:44-54 | `length_count` yields exactly the announced number of pairs |
| Parser.NameOfLine | src/parser.rs:23-33 | `Name:`, blanks, a line and a line ending give that line, trailing blanks included, and the rest after the line ending |
| Parser.NameShape | src/parser.rs:23-33 | whatever `name` accepts is `Name:`, blanks, a name free of line endings that does not start with a blank, a line ending and the rest |
| Parser.Db | src/parser.rs:35-41 | never fails; `None` leaves the input as it was, and is the result whenever `DB#:` is absent |
| Parser.DbConsumesPrefix | src/parser.rs:35-41 | `db` consumes only a prefix of its input |
| Parser.Parse | src/parser.rs:15-21 | a successful parse starts with `Name:` |
| Parser.ParseStartsWithName | src/parser.rs:15-33 | a successful parse took its name from a `Name:` line |
| Parser.CountLine | src/parser.rs:45-49 | the `Num Peaks:` header succeeds only after its tag, and the announced count fits a `usize` |
| Parser.PeaksDistinct | src/parser.rs:43-56 | the parsed peaks have distinct masses, and there are no more of them than the announced count |
| Parser.PairOfRendered | src/parser.rs:50-53 | the canonical text `m i\n` of a pair reads back as that pair |
| Parser.PairsOfRendered | src/parser.rs:44-54 | the canonical text of N pairs reads back as exactly those pairs, in order |
| Parser.DbOfRendered | src/parser.rs:35-41 | the canonical `DB#:` line, or its absence, reads back as the database id |
| Parser.PeaksOfRendered | src/parser.rs:43-56 | the canonical `Num Peaks:` line and pairs read back as the collected pairs |
| Parser.ParseOfRendered | src/parser.rs:15-21 | the canonical text parses back to its name, id and collected pairs; trailing text is a panic from `assert!`, not an `Err` |
| Parser.ParseRoundTrip | src/parser.rs:15-21 | `Name: n`, an optional `DB#: d` line, `Num Peaks: k` and `m i` per pair parse back to exactly (n, d, pairs) when n has no leading blank or line ending and the masses are distinct |
| Strings.Truncate | src/utils/string.rs:6-10 | the result is a prefix of the input with min(max, length) characters |
| Strings.TruncateShort | src/utils/string.rs:9 | a string of at most `max` characters comes back unchanged |
| Strings.TruncateToZero | src/utils/string.rs:7-9 | truncating to 0 gives the empty string |
| Strings.TruncateIdempotent | src/utils/string.rs:6-10 | truncating twice to the same length is truncating once |
| Strings.TruncateMonotone | src/utils/string.rs:6-10 | for a <= b, `truncate(s, a)` is a prefix of `truncate(s, b)` and equals truncating that to `a` |
| HigherOrder.CountTrue | src/utils/higher_order_functions.rs:3-12 | the number of true answers never exceeds the number of answers |
| HigherOrder.Temp.Call | src/utils/higher_order_functions.rs:3-12 | answers `f(index)`; the counter advances only on `true`, so it stays the number of earlier true answers |
| HigherOrder.Index.Call | src/utils/higher_order_functions.rs:14-17 | answers `f` of the call's position, whatever the item; the counter advances on every call |
| HigherOrder.WithIndex.Call | src/utils/higher_order_functions.rs:19-22 | answers `f(k, item)` on the k-th call; the counter advances on every call |
| HigherOrder.KeptPositions | src/utils/higher_order_functions.rs:19-22 | every kept position is an index of the sequence |
| HigherOrder.KeptPositionsExact | src/utils/higher_order_functions.rs:19-22 | the kept positions are strictly increasing and are exactly the i with `f(i, xs[i])` |
| HigherOrder.Select | src/app/mod.rs:384 | the kept elements are the elements at the kept positions, in order |
| HigherOrder.RetainWithIndex | src/app/mod.rs:384 | `retain(with_index(f))` calls `f` once per element, front to back, and keeps exactly the elements at positions i with `f(i, xs[i])`, in order |
| NdArrays.Range | src/utils/ndarray.rs:17 | `0..n` |
| NdArrays.Swap | src/utils/ndarray.rs:18 | an exchange of two indices keeps the multiset |
| NdArrays.InsertLeft | src/utils/ndarray.rs:18 | one insertion pass extends the sorted prefix by one and keeps the multiset |
| NdArrays.Permutation.New | src/utils/ndarray.rs:84-88 | the indices are the given vector |
| NdArrays.Permutation.FromRange | src/utils/ndarray.rs:95-100 | the indices are `0..n` |
| NdArrays.Permutation.SortBy | src/utils/ndarray.rs:90-92 | sorting keeps the multiset of indices, after which no two neighbours compare as `Greater` |
| NdArrays.Slices | src/utils/ndarray.rs:49 | the slices of the array along the axis, each of the other dimension's length |
| NdArrays.PickPermuted | src/utils/ndarray.rs:49-66 | rearranged indices pick the same multiset of slices |
| NdArrays.PermutationKeepsSlices | src/utils/ndarray.rs:17-66 | a permutation of `0..n` picks every slice exactly once |
| NdArrays.PermuteAxis | src/utils/ndarray.rs:35-74 | the length of the permutation must equal the axis length; an empty array is returned as it is; otherwise the result is new, has the source's shape, moves `result.len()` elements, and its slice i is the source's slice `indices[i]` |
| NdArrays.SortAxisBy | src/utils/ndarray.rs:13-20 | the permutation stays a permutation of `0..n` with no neighbours comparing `Greater`; the result's slices are the source's slices in that order, the same multiset |
| Maxima.Largest | src/app.rs:347 | the largest element is at least every element |
| Maxima.LargestIn | src/app.rs:347 | the largest element of a non-empty sequence is one of its elements |
| Maxima.LargestAppend | src/app.rs:347 | appending a value raises the largest element to it or leaves it |
| Temp.WithDefault | src/utils/temp.rs:49 | `entry(k).or_default()` adds one entry exactly when the key is absent |
| Temp.WithDefaultExtends | src/utils/temp.rs:49 | the old entries stay in place, and the added entry is `(k, 0)` |
| Temp.WithDefaultKeys | src/utils/temp.rs:49 | the key order is unchanged, or the new key is last |
| Temp.WithDefaultGet | src/utils/temp.rs:49 | a missing key reads 0 afterwards; every other lookup is unchanged |
| Temp.WithDefaultDistinct | src/utils/temp.rs:49 | keys stay distinct |
| Temp.FillRangePrefix | src/utils/temp.rs:48-50 | the fill loop keeps every entry where it was |
| Temp.FillRangeKeys | src/utils/temp.rs:48-50 | afterwards the keys are the old ones plus every mass of the range |
| Temp.FillRangeZeros | src/utils/temp.rs:48-50 | every inserted entry has intensity 0 |
| Temp.FillRangeDistinct | src/utils/temp.rs:48-50 | keys stay distinct |
| Temp.FillRangeTwice | src/utils/temp.rs:48-54 | filling `0..a` then `0..b` is filling `0..max(a, b)` |
| Temp.PeakMap.EntryOrDefault | src/utils/temp.rs:49 | the map becomes `or_default` of the key and keeps distinct keys |
| Temp.PeakMap.FillThrough | src/utils/temp.rs:48-50 | after `for i in 0..=max` the map is the old map filled over `0..=max` |
| Temp.PeakMap.FillToLength | src/utils/temp.rs:51-54 | the loop with its counter advanced terminates, an empty map stays empty, and a non-empty map ends with length one past its largest key |
| Temp.PeakMap.Maximums | src/utils/temp.rs:45-63 | `None` exactly on an empty map, which is left alone; otherwise every mass from 0 to the largest key is present, old entries keep place and intensity, and new ones map to 0 |
| Temp.AsWrittenNeverExits | src/utils/temp.rs:51-54 | as written, on a non-empty map the counter stays 0 and the guard `i < peaks.len()` holds after any number of passes |
| Temp.Pad | src/utils/temp.rs:164-166 | padding keeps the vector as a prefix and fills it with zeros up to the key |
| Temp.Densify | src/utils/temp.rs:163-169 | the nested push loops compute the fold |
| Temp.DenseOfAscending | src/utils/temp.rs:163-169 | for strictly ascending keys, `output[key] == value`, gaps are 0 and the length is the last key + 1 |
| Temp.DenseOfTestInput | src/utils/temp.rs:145-150 | the test's map `9 => 0, 10 => 1, 11 => 2, 12 => 3` gives the vector of test `a` |
| AppFiles.FilteredExact | src/app.rs:333-340 | `filtered` is strictly increasing, every entry is below `files.len()`, and it lists exactly the positions whose key is not excluded |
| AppFiles.IntensitiesMembers | src/app.rs:345-346 | the flattened intensities are exactly those of the files at the listed positions |
| AppFiles.MaxOrOne | src/app.rs:347-349 | at least every element; 1 when there is none |
| AppFiles.ShownIntensities | src/app.rs:342-350 | the intensities read are exactly those of the shown files |
| AppFiles.MaxIntensityBounds | src/app.rs:342-350 | `max` is at least every intensity of every shown file; it is one of them when there is one, and 1 when there is none |
| AppFiles.ExcludedFileIgnored | src/app.rs:333-350 | replacing an excluded file by another excluded one changes neither `filtered` nor `max` |
| AppFiles.App.Filter | src/app.rs:333-340 | `filtered` becomes the positions of the shown files; nothing else changes |
| AppFiles.App.Max | src/app.rs:342-350 | `max` becomes the largest intensity at the `filtered` positions, or 1; nothing else changes |
| AppFiles.App.Update | src/app.rs:328-331 | `filtered` is recomputed before `max`, so `max` is the largest shown intensity under the current filter |
| Display.Identify | src/utils/display.rs:42-48 | the path when there is one, else the name when it is non-empty, else "??? ？" |
| Display.SizeOfSuffixed | src/utils/display.rs:49-51 | a label ending in ` (N bytes)` reads back as size N |
| Display.DroppedLabelTellsSize | src/utils/display.rs:40-54 | when the bytes are present the dropped file's label ends in ` (N bytes)` with N their number |
| Display.DroppedLabelShape | src/utils/display.rs:40-54 | the label starts with the path, name or placeholder, and has nothing after it exactly when the bytes are absent |
| Display.HoveredIsDroppedWithoutBytes | src/utils/display.rs:56-67 | a hovered file is labelled by its path, else its mime, else the placeholder, with no bytes suffix |

## Left out

- The user interface: panels, windows, plots, sliders and the drag-and-drop preview are toolkit
  glue. The 0..=10 range of `count` is a slider setting; `AppFinder.PlotPredictions` takes any count.
- I/O: reading dropped files, UTF-8 decoding, program start-up and persisted settings.
- Floating point: `normalize`, colours, statistics, box and difference plots, `PeaksDetector`.
  `App::max` is an `f64` that the model keeps as a `nat`.
- Predictioner.Compute: the score is exact `nat` arithmetic, not `f64`. The test
  `intensity < f64::EPSILON` becomes `intensity == 0`, because a product of naturals is
  below 1 only when it is 0. `f64` rounding and overflow are not modelled.
- `FrameCache` memoisation is left out: the compute functions are pure functions, which is all
  the caching relies on.
- src/app/permutationer.rs is left out: it wraps a library permutation iterator and is not in
  the module tree.
- The exploratory tests `test0`, `test1` and `test3`, and the `Label` flags, are left out.
- HigherOrder: the wrapped `f` is a pure function. An `FnMut` with state of its own is not
  modelled.
- Parser: nom's error values are reduced to one `Err`, without their payloads.
  `File::from_str` only converts that error, so `Parser.Parse` stands for it.
- NdArrays.PermutationKeepsSlices: an array of any dimension is viewed as two-dimensional, as
  (position on the axis, element of the slice). Strides and raw-pointer copies are modelled only
  by their effect.
- NdArrays.PermuteAxis: requires every index to be below the axis length. The source checks
  only the length; an index out of range would read out of bounds.
- NdArrays.Permutation.SortBy: insertion sort stands in for the library's stable sort.
  `cmp` must answer consistently, and stability itself is not stated.
- NdArrays.SortAxisBy: the sorted permutation is a ghost result, since the source drops it.
- Display: `path.display()` is the path text itself. Lossy conversion of non-UTF-8 paths is
  not modelled. `DroppedFile.last_modified` is never shown, so it is left out.
- AppFiles: the `ParsedFile` type is not part of this model. A file's peaks are taken to be the
  parser's peak map.
- AppFiles.App.Max: requires `filtered` to index `files`. The source panics on a stale position.
- AppFinder.Walk: requires the deltas not to exceed the start mass, as `mass -= delta` on
  `usize` panics below 0 when overflow checks are on (debug builds). A release build wraps
  instead, and the model does not follow a wrapped mass. `Chooses` also requires every chosen
  candidate index to lie inside its step, since `self.pattern[j][prediction.0[j]]`
  (src/app/mod.rs:500) panics otherwise. AppFinder.ScorePoint also requires the masses to stay
  inside the intensities.
- AppFinder.Dragged: only a dragged value is clamped to `0..=bounds.mass.end()`. A delta nobody
  dragged is left as it is, even when a narrowed mass bound puts it above the end.
- Temp.PeakMap.Maximums: it uses the corrected loop, because the loop as written never
  terminates on a non-empty map (see Findings).

## Findings

| source | as written | input that shows it | evidently intended | confidence | as-written member | corrected member |
|---|---|---|---|---|---|---|
| src/utils/temp.rs:51-54 | `let i = 0; while i < peaks.len() { peaks.entry(i as _).or_default(); }` never advances `i`, so on a non-empty map the guard stays true forever | any non-empty map, e.g. `{9 => 0}`: after the fill the map has 10 entries and `0 < 10` holds on every pass | advance `i` each pass, as the commented-out loop of the test at src/utils/temp.rs:151-155 does with `key += 1`, so the loop stops at length largest key + 1 | not executed | Temp.AsWrittenNeverExits | Temp.PeakMap.FillToLength |
