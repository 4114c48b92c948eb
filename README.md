# hscluster outliers and entities in Dafny

This project models two parts of hscluster, a document-clustering tool:

- The three upper-outlier detectors in `outliers.py`:
  - `jump_outliers`: the first large jump between sorted neighbours.
  - `outliers`: a percentile fence.
  - `mad_based_outlier`: a modified z-score from the median absolute deviation.
- The `Entity` record of `hscluster/models.py`: a named entity whose name is normalised with `strip().lower()`, compared on name and label, hashed through the string `name_label`, and printed as `name (label)`.

Numbers are exact reals. numpy raising on an input that is too short becomes `Failure(InvalidInput)`.

The project has three modules:

- `Numeric` (`numeric.dfy`) holds exact stand-ins for what the detectors call:
  - Python's `sorted` and `sum`;
  - numpy's linear-interpolation `percentile` at whole-number percentages;
  - `median`.
- `Outliers` (`outliers.dfy`) holds the three detectors:
  - `jump_outliers` is a method. Its `avg_diffs` loop is the method `AverageDiffs`, proved against the function `Scores`.
  - `outliers` and `mad_based_outlier` are functions, as their source is expression code.
- `Models` (`models.dfy`) holds `Entity` as a datatype with its normalising constructor and its `__eq__`, `__hash__` and `__repr__`.

The model follows what the code computes, also where names or comments suggest otherwise:

- `outliers` takes `q[0]` and `q[2]` of the percentiles at 0, 25, 50 and 75. These are the minimum and the median, although the variables are named `q1` and `q3` and their difference `interquartile_range` (outliers.py:36-38). The fence is therefore `median + thresh * (median - min)`.
- `outliers` has no length check of its own. It fails only on an empty input, where numpy's `percentile` raises, and accepts one to three values.
- `outliers` enumerates the caller's `values` (outliers.py:40), so its positions are in input order. `jump_outliers` returns positions in sorted order.
- `jump_outliers([1, 2, 3, 10, 12, 14])` returns `[2, 3, 4, 5]`, while its docstring says the outliers "start from 10", which would be `[3, 4, 5]` (outliers.py:16-18; see Findings).

## Model

| member | source | states |
|---|---|---|
| Numeric.Sort | outliers.py:20 | `sorted` keeps the number of values (that it orders and only rearranges them is `SortCorrect`) |
| Numeric.SortCorrect | outliers.py:20 | The sorted form is ascending and has the same multiset of values as the input |
| Numeric.SortedUnique | outliers.py:20 | Two ascending sequences with the same multiset are equal, so the sorted form is determined by the values alone |
| Numeric.SortPermutationInvariant | outliers.py:20 | Inputs that are rearrangements of each other sort to the same sequence |
| Numeric.Sum | outliers.py:25 | `sum` of non-negative values is non-negative |
| Numeric.Percentile | outliers.py:35 | A percentile of a non-empty input lies between its minimum and maximum |
| Numeric.Percentiles | outliers.py:35 | Percentiles at a list of percentages give one value per percentage, each within the input's range |
| Numeric.PercentilesAt | outliers.py:35 | Entry i of the vectorised percentile is the percentile at the i-th percentage |
| Numeric.PercentileZeroIsMin | outliers.py:35-36 | The 0th percentile is the smallest input value |
| Numeric.PercentileFiftyIsMedian | outliers.py:35-37 | The 50th percentile is the median: the middle sorted value, or the mean of the two middle ones |
| Numeric.Median | outliers.py:49 | `np.median` lies between the smallest and the largest value (that it is the middle value is `PercentileFiftyIsMedian`) |
| Numeric.MedianPermutationInvariant | outliers.py:49 | The median depends only on the multiset of values |
| Numeric.MedianShift | outliers.py:49-50 | Adding c to every value adds c to the median |
| Outliers.Range | outliers.py:28 | `range(lo, hi)` has hi - lo entries, the i-th being lo + i |
| Outliers.Diffs | outliers.py:21 | One difference per neighbouring pair; each closes the gap from one value to the next; all are non-negative on sorted input |
| Outliers.RunningAverage | outliers.py:25 | On non-negative differences the running average is non-negative, so `avg + 1` is at least 1 |
| Outliers.Score | outliers.py:26 | Every jump score lies between 0 and the difference it damps; no division by zero occurs |
| Outliers.Scores | outliers.py:23-26 | One score per difference, each between 0 and the difference it damps |
| Outliers.JumpScores | outliers.py:20-26 | `avg_diffs` of N values has N - 1 entries (none for an empty input), all non-negative |
| Outliers.FirstArgMax | outliers.py:28 | `np.argmax` returns a position holding the largest value, with every earlier value strictly smaller |
| Outliers.FirstArgMaxUnique | outliers.py:28 | Only one position satisfies that description |
| Outliers.JumpStart | outliers.py:20-28 | On two or more values the run starts at the first maximal jump score, at most two before the end |
| Outliers.AverageDiffs | outliers.py:23-26 | The loop builds exactly the list of jump scores, one per difference |
| Outliers.JumpOutliers | outliers.py:12-28 | Fails exactly when fewer than two values are given; otherwise returns `range(k, N)` with k the first maximal score, at least two positions, ending at N - 1 |
| Outliers.JumpStartPermutationInvariant | outliers.py:20-28 | Rearranging the input does not move the start of the run |
| Outliers.JumpDocstringScores | outliers.py:16-26 | The docstring's values [1, 2, 3, 10, 12, 14] score [1, 2/3, 21/5, 8/13, 5/8] |
| Outliers.JumpDocstringExample | outliers.py:16-28 | On the docstring's values the run starts at position 2 and is [2, 3, 4, 5] |
| Outliers.JumpFlagsMinimum | outliers.py:20-28 | When the first jump scores highest, as on [0, 10, 11], every position is returned, the minimum included |
| Outliers.IntendedJumpOutliers | outliers.py:14-18 | The run the docstring describes fails exactly on fewer than two values, and otherwise is non-empty, shorter than the input and never contains position 0 |
| Outliers.IntendedJumpStart | outliers.py:14-18 | That run starts one past where the code's run starts |
| Outliers.IntendedJumpBoundary | outliers.py:14-18 | That run starts at the upper value of the pair whose difference scored highest |
| Outliers.IntendedJumpDocstringExample | outliers.py:16-18 | On the docstring's values that run is [3, 4, 5], starting at the value 10 |
| Outliers.Quartiles | outliers.py:35 | Four percentiles; the first is the minimum and the third the median |
| Outliers.FenceThreshold | outliers.py:35-39 | `q3 + thresh * (q3 - q1)` equals median + thresh * (median - min) |
| Outliers.Fence | outliers.py:38-39 | The fence median + thresh * (median - min) is the median for thresh = 0 and at or above it for thresh >= 0 |
| Outliers.FenceMonotone | outliers.py:38-39 | A larger multiplier gives a fence at least as high; a non-negative one gives a fence at or above the median |
| Outliers.IndicesAbove | outliers.py:40 | Position i is listed iff its value exceeds the fence; positions come in increasing order |
| Outliers.QuartileOutliers | outliers.py:31-40 | Fails exactly on empty input; otherwise position i is returned iff i < N and values[i] > fence, in increasing order |
| Outliers.QuartileOutliersMonotone | outliers.py:38-40 | Raising the multiplier never adds a position |
| Outliers.QuartileOutliersAboveMedian | outliers.py:36-40 | With a non-negative multiplier, no value at or below the median is returned, and the minimum never is |
| Outliers.QuartileOutliersPermutation | outliers.py:35-40 | If b is a rearrangement of a with b[i] = a[p[i]], then i is returned for b iff p[i] is returned for a |
| Outliers.DefaultQuartileOutliersAboveMedian | outliers.py:31-40 | With the default `thresh=2.`, no value at or below the median, and not the minimum, is returned |
| Outliers.AbsoluteDeviations | outliers.py:50-51 | One entry per point: the non-negative square root of its squared distance to the median |
| Outliers.Mad | outliers.py:49-52 | The median absolute deviation is non-negative |
| Outliers.ZScoreAbove | outliers.py:54-56 | With a positive MAD, `0.6745 * dev / MAD > thresh` iff `0.6745 * dev > thresh * MAD` |
| Outliers.MadBasedOutlier | outliers.py:43-56 | The mask has one flag per point (none for an empty input); point i is flagged iff 0.6745 * \|x_i - median\| > thresh * MAD |
| Outliers.MadTranslationInvariant | outliers.py:49-56 | Adding a constant to every point changes neither the MAD nor the mask |
| Outliers.MadFlagsByDistance | outliers.py:49-56 | With a non-negative threshold a point at the median is not flagged; a point at least as far from the median as a flagged point is flagged |
| Outliers.DefaultMadSparesMedian | outliers.py:43-56 | With the default `thresh=2.5`, a point equal to the median is not flagged |
| Models.LeadingRun | hscluster/models.py:9 | The leading whitespace run: everything before it is whitespace and the next character is not |
| Models.TrailingEnd | hscluster/models.py:9 | The trailing whitespace run: everything from it on is whitespace and the character before is not |
| Models.LeadingRunUnique | hscluster/models.py:9 | Only one length fits that description of the leading run |
| Models.TrailingEndUnique | hscluster/models.py:9 | Only one index fits that description of the trailing run |
| Models.Strip | hscluster/models.py:9 | `strip()` returns something that starts and ends with non-whitespace (or is empty) and fits after the leading whitespace |
| Models.StripSlice | hscluster/models.py:9 | `strip()` returns a contiguous slice of its input, starting after the leading whitespace, character for character |
| Models.StripCutsOnlyChars | hscluster/models.py:9 | Everything `strip()` cuts off after what it keeps is whitespace |
| Models.StripUnique | hscluster/models.py:9 | Any non-empty trimmed slice with only whitespace around it is what `strip()` returns |
| Models.StripTrimmed | hscluster/models.py:9 | `strip()` leaves a string with no whitespace at its ends unchanged |
| Models.LowerChar | hscluster/models.py:9 | A capital 'A'..'Z' becomes the letter 32 code points above it ('a'..'z'); any other character is kept; no capital results |
| Models.LowerCharKeepsWhitespace | hscluster/models.py:9 | Lower-casing a character neither creates nor removes whitespace |
| Models.ToLower | hscluster/models.py:9 | `lower()` keeps the length, maps each capital to its small letter and keeps every other character, so no capital is left |
| Models.ToLowerKeepsWhitespace | hscluster/models.py:9 | After `lower()` whitespace is exactly where it was |
| Models.ToLowerTrimmed | hscluster/models.py:9 | `lower()` of a trimmed string is trimmed |
| Models.Normalize | hscluster/models.py:9 | The stored name is the part of the raw name after its leading whitespace, each character lower-cased, up to its trailing whitespace; it is trimmed and has no capital letter |
| Models.NormalizeIdempotent | hscluster/models.py:9 | Normalising twice is normalising once; a name is unchanged iff it is already trimmed and lower-case |
| Models.StripFoo | hscluster/models.py:9 | `strip()` cuts "  Foo " down to "Foo" |
| Models.LowerFoo | hscluster/models.py:9 | `lower()` turns "Foo" into "foo", which is in normal form |
| Models.FooNormalizes | hscluster/models.py:9 | "  Foo " and "foo" both normalise to "foo" |
| Models.NewEntity | hscluster/models.py:8-10 | A new entity stores the normalised name and the label exactly as given |
| Models.NewEntityIdempotent | hscluster/models.py:8-10 | Rebuilding an entity from its stored name and label gives the same entity |
| Models.EqualsIsIdentity | hscluster/models.py:12-13 | `__eq__` holds iff both stored fields agree |
| Models.NewEntityEquals | hscluster/models.py:8-13 | Entities built from raw names are equal iff the names normalise alike and the labels match |
| Models.EqualsIgnoresSpaceAndCase | hscluster/models.py:8-13 | An entity named "  Foo " equals one named "foo" with the same label; a different label makes them unequal |
| Models.EqualsEquivalence | hscluster/models.py:12-13 | `__eq__` is reflexive, symmetric and transitive |
| Models.Entity.HashKey | hscluster/models.py:15-16 | The hashed string is the name, an underscore, then the label |
| Models.EqualsSameHashKey | hscluster/models.py:12-16 | Equal entities hash the same string, as `__eq__` and `__hash__` must agree |
| Models.HashKeyCollision | hscluster/models.py:12-16 | Unequal entities can share a hashed string (("a_b", "c") and ("a", "b_c")) |
| Models.Entity.Repr | hscluster/models.py:18-19 | The printed form is the name, " (", the label and ")" |
| Models.ReprShowsNormalizedName | hscluster/models.py:8-19 | An entity prints its normalised name first, and the form ends with ")" |
| Models.PrintedFoo | hscluster/models.py:18-19 | The entity ("foo", "ORG") prints as "foo (ORG)" |
| Models.ReprExample | hscluster/models.py:8-19 | The raw name "  Foo " with label "ORG" prints as "foo (ORG)" |

## Left out

- `Document` and the spacy warm-up call in `hscluster/models.py` are left out. They run the spacy NLP pipeline, which is outside this model.
- The multi-dimensional branch of `mad_based_outlier` is left out. One-dimensional points are reshaped to single columns, so the Euclidean distance to the median is the absolute difference. Square roots of sums of squares over several columns are not modelled.
- Outliers.MadBasedOutlier: requires MAD > 0 on a non-empty input. With MAD = 0, numpy divides by zero and yields inf or nan, which exact reals cannot express. The empty input is modelled: it gives an empty mask, as numpy does after warning that the median of an empty array is nan.
- Floating point is left out. The arithmetic is exact over reals, so rounding, inf and nan are not modelled. Under Python 2, both divisions in the scoring loop truncate for integer inputs: `sum(diffs[:i])/(i+1)` (outliers.py:25) and `diffs[i]/(avg+1)` (outliers.py:26). Neither truncation is modelled.
- Numeric.Percentile: only whole-number percentages from 0 to 100 are modelled, which covers every call the source makes (`np.arange(0, 100, 25)` and the median).
- Outliers.Quartiles: the 25th and 75th percentiles are computed, as in the source, but nothing is proved about them, since the code never uses them.
- Python's `sorted` is modelled as an insertion sort. Only its result matters, and that result is unique (`Numeric.SortedUnique`).
- `np.argmax` is a recursive function (`Outliers.FirstArgMax`), not a loop, because the source calls a library routine there.
- Models.ToLower: only the ASCII letters A-Z are lowered. Other letters with a Unicode lower-case form are kept as they are.
- Models.Entity.HashKey: only the string handed to `hash` is modelled. Python's hash value itself is per-process randomised.
- The default arguments are the constants `Outliers.DefaultFenceMultiplier` (2.0) and `Outliers.DefaultMadThreshold` (2.5). Python's calls that omit `thresh` are the model's calls with these constants.
- The label is stored in a field named `kind`, because `label` is a reserved word in Dafny.
- Numeric.Sort: its own contract gives only the length. That the result is ascending and a rearrangement of the input is `SortCorrect`'s contract, kept out of `Sort` so that proofs mentioning a sort do not all carry it.
- Models.Normalize: where the kept slice ends is not in its contract; `StripCutsOnlyChars` states that everything after it is whitespace.

## Findings

| source | as written | input that shows it | evidently intended | confidence | as-written member | corrected member |
|---|---|---|---|---|---|---|
| outliers.py:16-28 | `range(argmax(avg_diffs), len(values))` starts at the lower value of the largest jump | [1, 2, 3, 10, 12, 14] gives [2, 3, 4, 5], which includes the value 3; the docstring says the outliers start from 10 | `range(argmax(avg_diffs) + 1, len(values))`, starting at the upper value of the jump | medium, not executed | Outliers.JumpDocstringExample | Outliers.IntendedJumpOutliers |
