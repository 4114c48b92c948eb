/** The three upper-outlier detectors: the largest normalised jump between
    neighbouring sorted values, the percentile fence, and the median
    absolute deviation (one-dimensional input). Numbers are exact reals. */
module Outliers {
  import opened Numeric

  /** What numpy raises on an input that is too short: `argmax` of an
      empty sequence, `percentile` of an empty array. */
  datatype Error = InvalidInput

  datatype Result<T> = Success(value: T) | Failure(error: Error)

  predicate NonNegative(s: seq<real>) {
    forall i :: 0 <= i < |s| ==> s[i] >= 0.0
  }

  /** Strictly increasing, so no index repeats and order is kept. */
  predicate Increasing(s: seq<nat>) {
    forall i, j :: 0 <= i < j < |s| ==> s[i] < s[j]
  }

  /** `list(range(lo, hi))`. */
  function Range(lo: nat, hi: nat): (r: seq<nat>)
    requires lo <= hi
    ensures |r| == hi - lo
    ensures forall i :: 0 <= i < |r| ==> r[i] == lo + i
  {
    seq(hi - lo, i requires 0 <= i < hi - lo => lo + i)
  }

  // ---------------------------------------------------------------------
  // jump_outliers

  /** `[y - x for x, y in zip(values, values[1:])]`: one difference per
      neighbouring pair, none when there is no pair. */
  function Diffs(s: seq<real>): (d: seq<real>)
    ensures |d| == if s == [] then 0 else |s| - 1
    ensures Sorted(s) ==> NonNegative(d)
    ensures forall i :: 0 <= i < |d| ==> s[i] + d[i] == s[i + 1]
  {
    if s == [] then [] else seq(|s| - 1, i requires 0 <= i < |s| - 1 => s[i + 1] - s[i])
  }

  /** `sum(diffs[:i]) / (i + 1)`: the first `i` differences summed and
      divided by `i + 1` (not by `i`). Never negative, so `avg + 1` is
      at least 1 and the score below never divides by zero. */
  function RunningAverage(d: seq<real>, i: nat): (avg: real)
    requires NonNegative(d) && i <= |d|
    ensures avg >= 0.0
  {
    assert NonNegative(d[..i]);
    Sum(d[..i]) / (i + 1) as real
  }

  /** `diffs[i] / (avg + 1)`: the i-th jump damped by the jumps before it. */
  function Score(d: seq<real>, i: nat): (r: real)
    requires NonNegative(d) && i < |d|
    ensures 0.0 <= r <= d[i]
  {
    var q := RunningAverage(d, i) + 1.0;
    DivideByAtLeastOne(d[i], q);
    d[i] / q
  }

  /** The whole `avg_diffs` list. */
  function Scores(d: seq<real>): (r: seq<real>)
    requires NonNegative(d)
    ensures |r| == |d|
    ensures forall i :: 0 <= i < |d| ==> 0.0 <= r[i] <= d[i]
  {
    seq(|d|, i requires 0 <= i < |d| => Score(d, i))
  }

  /** `k` is where numpy's `argmax` lands: a largest element, and the
      first of them. */
  predicate IsFirstArgMax(a: seq<real>, k: nat) {
    && k < |a|
    && (forall j :: 0 <= j < |a| ==> a[j] <= a[k])
    && (forall j :: 0 <= j < k ==> a[j] < a[k])
  }

  /** `np.argmax` on a non-empty sequence. */
  function FirstArgMax(a: seq<real>): (k: nat)
    requires |a| > 0
    ensures IsFirstArgMax(a, k)
  {
    if |a| == 1 then 0
    else
      var init := a[..|a| - 1];
      var k := FirstArgMax(init);
      assert forall j :: 0 <= j < |init| ==> init[j] == a[j];
      assert IsFirstArgMax(init, k);
      if a[|a| - 1] > a[k] then |a| - 1 else k
  }

  /** At most one index is the first maximum. */
  lemma FirstArgMaxUnique(a: seq<real>, k1: nat, k2: nat)
    requires IsFirstArgMax(a, k1) && IsFirstArgMax(a, k2)
    ensures k1 == k2
  {
    assert a[k1] <= a[k2] && a[k2] <= a[k1];
  }

  /** The jump scores of `values` after sorting. */
  function JumpScores(values: seq<real>): (r: seq<real>)
    ensures |r| == if values == [] then 0 else |values| - 1
    ensures NonNegative(r)
  {
    SortCorrect(values);
    Scores(Diffs(Sort(values)))
  }

  /** The sorted position at which the outlier run of `jump_outliers`
      starts: the first position of the largest jump score. */
  function JumpStart(values: seq<real>): (k: nat)
    requires |values| >= 2
    ensures k <= |values| - 2
    ensures IsFirstArgMax(JumpScores(values), k)
  {
    FirstArgMax(JumpScores(values))
  }

  /** The loop of `jump_outliers` that builds `avg_diffs`: for each
      difference, the running sum of the ones before it over `i + 1`, and
      the difference divided by that average plus one. */
  method AverageDiffs(diffs: seq<real>) returns (avgDiffs: seq<real>)
    requires NonNegative(diffs)
    ensures avgDiffs == Scores(diffs)
  {
    avgDiffs := [];
    for i := 0 to |diffs|
      invariant |avgDiffs| == i
      invariant forall j :: 0 <= j < i ==> avgDiffs[j] == Score(diffs, j)
    {
      assert NonNegative(diffs[..i]);
      var avg := Sum(diffs[..i]) / (i + 1) as real;
      avgDiffs := avgDiffs + [diffs[i] / (avg + 1.0)];
    }
  }

  /** `jump_outliers(values)`: positions, in sorted order, from the first
      largest jump score to the end. Fewer than two values leave no
      difference to score, and numpy's `argmax` of the empty list raises. */
  method JumpOutliers(values: seq<real>) returns (r: Result<seq<nat>>)
    ensures |values| < 2 ==> r == Failure(InvalidInput)
    ensures |values| >= 2 ==> r == Success(Range(JumpStart(values), |values|))
    ensures r.Success? ==> |r.value| >= 2 && r.value[|r.value| - 1] == |values| - 1
  {
    var sorted := Sort(values);
    SortCorrect(values);
    var diffs := Diffs(sorted);
    var avgDiffs := AverageDiffs(diffs);
    if avgDiffs == [] {
      // np.argmax([]) raises
      return Failure(InvalidInput);
    }
    r := Success(Range(FirstArgMax(avgDiffs), |values|));
  }

  /** Only the multiset of the input matters, since it is sorted first. */
  lemma JumpStartPermutationInvariant(a: seq<real>, b: seq<real>)
    requires |a| >= 2 && multiset(a) == multiset(b)
    ensures |b| == |a| && JumpStart(a) == JumpStart(b)
  {
    assert |a| == |multiset(a)| == |multiset(b)| == |b|;
    SortPermutationInvariant(a, b);
  }

  /** A score from the running sum of the differences before it. */
  lemma ScoreFromSum(d: seq<real>, i: nat, sum: real)
    requires NonNegative(d) && i < |d| && Sum(d[..i]) == sum
    ensures Scores(d)[i] == d[i] / (sum / (i + 1) as real + 1.0)
  {
  }

  /** Values already in order are scored as they stand. */
  lemma JumpScoresOfSorted(values: seq<real>)
    requires Sorted(values)
    ensures NonNegative(Diffs(values)) && JumpScores(values) == Scores(Diffs(values))
  {
    SortOfSorted(values);
  }

  /** The running sums of the docstring's differences [1, 1, 7, 2, 2]. */
  lemma DocstringSums(d: seq<real>)
    requires d == [1.0, 1.0, 7.0, 2.0, 2.0]
    ensures Sum(d[..0]) == 0.0 && Sum(d[..1]) == 1.0 && Sum(d[..2]) == 2.0
    ensures Sum(d[..3]) == 9.0 && Sum(d[..4]) == 11.0
  {
    SumPrefix(d, 0);
    SumPrefix(d, 1);
    SumPrefix(d, 2);
    SumPrefix(d, 3);
  }

  /** One score of the docstring's differences. */
  lemma DocstringScore(d: seq<real>, i: nat)
    requires d == [1.0, 1.0, 7.0, 2.0, 2.0] && i < 5
    ensures NonNegative(d)
    ensures Scores(d)[i] == [1.0, 2.0 / 3.0, 21.0 / 5.0, 8.0 / 13.0, 5.0 / 8.0][i]
  {
    DocstringSums(d);
    ScoreFromSum(d, i, [0.0, 1.0, 2.0, 9.0, 11.0][i]);
  }

  /** The scores of the docstring's differences [1, 1, 7, 2, 2]. */
  lemma DocstringScores(d: seq<real>)
    requires d == [1.0, 1.0, 7.0, 2.0, 2.0]
    ensures NonNegative(d)
    ensures Scores(d) == [1.0, 2.0 / 3.0, 21.0 / 5.0, 8.0 / 13.0, 5.0 / 8.0]
  {
    DocstringScore(d, 0);
    forall i | 0 <= i < 5
      ensures Scores(d)[i] == [1.0, 2.0 / 3.0, 21.0 / 5.0, 8.0 / 13.0, 5.0 / 8.0][i]
    {
      DocstringScore(d, i);
    }
  }

  /** The docstring's values are already sorted; their differences are
      [1, 1, 7, 2, 2] and their scores [1, 2/3, 21/5, 8/13, 5/8]. */
  lemma JumpDocstringScores(values: seq<real>)
    requires values == [1.0, 2.0, 3.0, 10.0, 12.0, 14.0]
    ensures JumpScores(values) == [1.0, 2.0 / 3.0, 21.0 / 5.0, 8.0 / 13.0, 5.0 / 8.0]
  {
    assert Sorted(values);
    JumpScoresOfSorted(values);
    assert Diffs(values) == [1.0, 1.0, 7.0, 2.0, 2.0];
    DocstringScores(Diffs(values));
  }

  /** The example of the docstring: the largest score, 21/5, is at
      position 2, so the run returned is [2, 3, 4, 5], which starts at the
      value 3 and not at 10. */
  lemma JumpDocstringExample(values: seq<real>)
    requires values == [1.0, 2.0, 3.0, 10.0, 12.0, 14.0]
    ensures JumpStart(values) == 2
    ensures Range(JumpStart(values), |values|) == [2, 3, 4, 5]
  {
    JumpDocstringScores(values);
    var s := JumpScores(values);
    assert IsFirstArgMax(s, 2);
    FirstArgMaxUnique(s, 2, JumpStart(values));
  }

  /** The scores of the differences [10, 1]: 10 and 1/6. */
  lemma MinimumDiffScores(d: seq<real>)
    requires d == [10.0, 1.0]
    ensures NonNegative(d) && Scores(d) == [10.0, 1.0 / 6.0]
  {
    SumPrefix(d, 0);
    ScoreFromSum(d, 0, 0.0);
    ScoreFromSum(d, 1, 10.0);
  }

  /** The scores of [0, 10, 11]: differences [10, 1], scores [10, 1/6]. */
  lemma MinimumExampleScores(values: seq<real>)
    requires values == [0.0, 10.0, 11.0]
    ensures JumpScores(values) == [10.0, 1.0 / 6.0]
  {
    assert Sorted(values);
    JumpScoresOfSorted(values);
    assert Diffs(values) == [10.0, 1.0];
    MinimumDiffScores(Diffs(values));
  }

  /** When the first jump scores highest, every value is returned, the
      minimum included. */
  lemma JumpFlagsMinimum(values: seq<real>)
    requires values == [0.0, 10.0, 11.0]
    ensures JumpStart(values) == 0
  {
    MinimumExampleScores(values);
    var s := JumpScores(values);
    assert IsFirstArgMax(s, 0);
    FirstArgMaxUnique(s, 0, JumpStart(values));
  }

  /** The run the docstring describes: it starts just above the largest
      scored jump, at the upper value of that pair. */
  function IntendedJumpOutliers(values: seq<real>): (r: Result<seq<nat>>)
    ensures r.Failure? <==> |values| < 2
    ensures r.Success? ==> 0 < |r.value| < |values| && 0 !in r.value
  {
    if |values| < 2 then Failure(InvalidInput)
    else Success(Range(JumpStart(values) + 1, |values|))
  }

  /** In the intended reading the boundary between kept and flagged
      values is exactly the largest scored jump: the run starts at the
      upper value of the pair whose difference scored highest. */
  lemma IntendedJumpBoundary(values: seq<real>)
    requires |values| >= 2
    ensures IntendedJumpOutliers(values).Success?
    ensures var s := IntendedJumpOutliers(values).value[0];
      && IsFirstArgMax(JumpScores(values), s - 1)
      && Sort(values)[s] - Sort(values)[s - 1] == Diffs(Sort(values))[s - 1]
  {
    var k := JumpStart(values);
    IntendedJumpStart(values);
    DiffAt(Sort(values), k);
  }

  /** The intended run starts one past the largest scored jump. */
  lemma IntendedJumpStart(values: seq<real>)
    requires |values| >= 2
    ensures IntendedJumpOutliers(values).Success?
    ensures IntendedJumpOutliers(values).value[0] == JumpStart(values) + 1
  {
  }

  /** A difference closes the gap between its two neighbours. */
  lemma DiffAt(t: seq<real>, k: nat)
    requires k + 1 < |t|
    ensures t[k + 1] - t[k] == Diffs(t)[k]
  {
  }

  /** On the docstring's example the intended run starts at 10. */
  lemma IntendedJumpDocstringExample(values: seq<real>)
    requires values == [1.0, 2.0, 3.0, 10.0, 12.0, 14.0]
    ensures IntendedJumpOutliers(values) == Success([3, 4, 5])
  {
    assert Range(3, 6) == [3, 4, 5];
    JumpDocstringExample(values);
  }

  // ---------------------------------------------------------------------
  // outliers (the percentile fence)

  /** `np.percentile(values, np.arange(0, 100, 25))`: the 0th, 25th, 50th
      and 75th percentiles, of which the first is the minimum and the
      third the median. */
  function Quartiles(values: seq<real>): (q: seq<real>)
    requires |values| > 0
    ensures |q| == 4
    ensures q[0] == Min(values) && q[2] == Median(values)
  {
    var ps: seq<nat> := [0, 25, 50, 75];
    assert ValidPercentages(ps);
    PercentilesAt(values, ps, 0);
    PercentilesAt(values, ps, 2);
    PercentileZeroIsMin(values);
    PercentileFiftyIsMedian(values);
    Percentiles(values, ps)
  }

  /** `mid + thresh * (mid - lo)`: a fence `thresh` spreads above `mid`. */
  function SpreadFence(mid: real, lo: real, thresh: real): real {
    mid + thresh * (mid - lo)
  }

  /** The fence the code computes, in the terms it amounts to:
      `median + thresh * (median - min)`. */
  function Fence(values: seq<real>, thresh: real): (t: real)
    requires |values| > 0
    ensures thresh == 0.0 ==> t == Median(values)
    ensures thresh >= 0.0 ==> Median(values) <= t
  {
    SpreadFenceMonotone(Median(values), Min(values), thresh, thresh);
    SpreadFence(Median(values), Min(values), thresh)
  }

  /** `q3 + thresh * (q3 - q1)` with `q1 = q[0]` and `q3 = q[2]`: despite
      the names these are the 0th and 50th percentiles, so the result is
      the fence above. */
  function FenceThreshold(values: seq<real>, thresh: real): (t: real)
    requires |values| > 0
    ensures t == Fence(values, thresh)
  {
    var q := Quartiles(values);
    var q1 := q[0];
    var q3 := q[2];
    var interquartileRange := q3 - q1;
    q3 + thresh * interquartileRange
  }

  /** `mid + t * (mid - lo)` grows with `t` when `lo <= mid`, and is at
      least `mid` for `t >= 0`. */
  lemma SpreadFenceMonotone(mid: real, lo: real, t1: real, t2: real)
    requires lo <= mid && t1 <= t2
    ensures SpreadFence(mid, lo, t1) <= SpreadFence(mid, lo, t2)
    ensures t1 >= 0.0 ==> mid <= SpreadFence(mid, lo, t1)
  {
    ScaleMonotone(mid - lo, t1, t2);
    if t1 >= 0.0 {
      ScaleMonotone(mid - lo, 0.0, t1);
    }
  }

  /** Since median - min >= 0, a higher multiplier gives a higher fence,
      and a non-negative one a fence at or above the median. */
  lemma FenceMonotone(values: seq<real>, t1: real, t2: real)
    requires |values| > 0 && t1 <= t2
    ensures Fence(values, t1) <= Fence(values, t2)
    ensures t1 >= 0.0 ==> Median(values) <= Fence(values, t1)
  {
    SpreadFenceMonotone(Median(values), Min(values), t1, t2);
  }

  /** `[i for i, v in enumerate(values) if v > t]`, from position `from` on. */
  function IndicesAbove(values: seq<real>, t: real, from: nat): (r: seq<nat>)
    requires from <= |values|
    decreases |values| - from
    ensures forall i: nat :: i in r <==> from <= i < |values| && values[i] > t
    ensures Increasing(r)
    ensures forall k :: 0 <= k < |r| ==> from <= r[k]
  {
    if from == |values| then []
    else
      var rest := IndicesAbove(values, t, from + 1);
      if values[from] > t then [from] + rest else rest
  }

  /** `outliers(values, thresh)`: the positions, in input order, of the
      values above the fence. numpy's `percentile` raises on an empty
      array; one to three values are accepted. */
  function QuartileOutliers(values: seq<real>, thresh: real): (r: Result<seq<nat>>)
    ensures r.Failure? <==> values == []
    ensures r.Success? ==> Increasing(r.value)
    ensures r.Success? ==> forall i: nat :: i in r.value <==> i < |values| && values[i] > Fence(values, thresh)
  {
    if values == [] then Failure(InvalidInput)
    else Success(IndicesAbove(values, FenceThreshold(values, thresh), 0))
  }

  /** A higher multiplier never adds an index. */
  lemma QuartileOutliersMonotone(values: seq<real>, t1: real, t2: real)
    requires values != [] && t1 <= t2
    ensures forall i: nat :: i in QuartileOutliers(values, t2).value ==> i in QuartileOutliers(values, t1).value
  {
    FenceMonotone(values, t1, t2);
  }

  /** With a non-negative multiplier no value at or below the median is
      returned; in particular the minimum never is. */
  lemma QuartileOutliersAboveMedian(values: seq<real>, thresh: real, i: nat)
    requires thresh >= 0.0 && i < |values|
    requires values[i] <= Median(values) || values[i] == Min(values)
    ensures i !in QuartileOutliers(values, thresh).value
  {
    FenceMonotone(values, thresh, thresh);
  }

  /** Rearranging the input rearranges the output the same way: if `b[i]`
      is `a[p[i]]` and `b` is a permutation of `a`, then `i` is flagged in
      `b` exactly when `p[i]` is flagged in `a`. */
  lemma QuartileOutliersPermutation(a: seq<real>, b: seq<real>, p: seq<nat>, thresh: real)
    requires a != [] && multiset(a) == multiset(b)
    requires |p| == |b| && forall i :: 0 <= i < |b| ==> p[i] < |a| && b[i] == a[p[i]]
    ensures forall i :: 0 <= i < |b| ==>
      (i in QuartileOutliers(b, thresh).value <==> p[i] in QuartileOutliers(a, thresh).value)
  {
    MedianPermutationInvariant(a, b);
    var fence := Fence(a, thresh);
    assert Fence(b, thresh) == fence;
    var ra := QuartileOutliers(a, thresh).value;
    var rb := QuartileOutliers(b, thresh).value;
    forall i | 0 <= i < |b|
      ensures i in rb <==> p[i] in ra
    {
      assert i in rb <==> b[i] > fence;
      assert p[i] in ra <==> a[p[i]] > fence;
    }
  }

  /** The default `thresh` of `outliers`. */
  const DefaultFenceMultiplier: real := 2.0

  /** Called with its default multiplier, `outliers` never returns a value
      at or below the median, nor the minimum. */
  lemma DefaultQuartileOutliersAboveMedian(values: seq<real>, i: nat)
    requires i < |values|
    requires values[i] <= Median(values) || values[i] == Min(values)
    ensures i !in QuartileOutliers(values, DefaultFenceMultiplier).value
  {
    QuartileOutliersAboveMedian(values, DefaultFenceMultiplier, i);
  }

  // ---------------------------------------------------------------------
  // mad_based_outlier, one-dimensional input

  /** The scale that turns a MAD into a standard-deviation estimate. */
  const ZScoreScale: real := 0.6745

  /** `sqrt(sum((points - median)**2, axis=-1))` on one coordinate: the
      non-negative square root of each point's squared distance to `m`. */
  function AbsoluteDeviations(points: seq<real>, m: real): (d: seq<real>)
    ensures |d| == |points|
    ensures NonNegative(d)
    ensures forall i :: 0 <= i < |points| ==> d[i] * d[i] == (points[i] - m) * (points[i] - m)
  {
    AbsSquare();
    seq(|points|, i requires 0 <= i < |points| => Abs(points[i] - m))
  }

  /** The median of the absolute deviations from the median. */
  function Mad(points: seq<real>): (r: real)
    requires |points| > 0
    ensures r >= 0.0
  {
    var d := AbsoluteDeviations(points, Median(points));
    assert d[0] >= 0.0;
    Median(d)
  }

  /** The division-free form of the test: `0.6745 * dev > thresh * mad`. */
  predicate ScaledDeviationExceeds(dev: real, mad: real, thresh: real) {
    ZScoreScale * dev > thresh * mad
  }

  /** `0.6745 * dev / mad > thresh` for one point: since `mad` is positive,
      the modified z-score exceeds the threshold exactly when the scaled
      deviation exceeds `thresh * mad`. */
  function ZScoreAbove(dev: real, mad: real, thresh: real): (r: bool)
    requires mad > 0.0
    ensures r <==> ScaledDeviationExceeds(dev, mad, thresh)
  {
    QuotientAbove(ZScoreScale * dev, mad, thresh);
    ZScoreScale * dev / mad > thresh
  }

  /** `mad_based_outlier(points, thresh)` on one-dimensional `points`:
      one flag per point, in input order, set when the modified z-score
      `0.6745 * |x - median| / MAD` exceeds `thresh`, that is when
      `0.6745 * |x - median| > thresh * MAD`. */
  function MadBasedOutlier(points: seq<real>, thresh: real): (mask: seq<bool>)
    requires points != [] ==> Mad(points) > 0.0
    ensures |mask| == |points|
    ensures forall i :: 0 <= i < |points| ==>
      (mask[i] <==> ScaledDeviationExceeds(Abs(points[i] - Median(points)), Mad(points), thresh))
  {
    if points == [] then
      // numpy's median of an empty array is nan, and the comparison runs
      // over no points at all
      []
    else
      var median := Median(points);
      var diff := AbsoluteDeviations(points, median);
      var medAbsDeviation := Median(diff);
      seq(|points|, i requires 0 <= i < |points| => ZScoreAbove(diff[i], medAbsDeviation, thresh))
  }

  /** Adding the same constant to every point changes neither the MAD nor
      the mask. */
  lemma MadTranslationInvariant(points: seq<real>, c: real, thresh: real)
    requires |points| > 0 && Mad(points) > 0.0
    ensures Mad(Shift(points, c)) == Mad(points)
    ensures MadBasedOutlier(Shift(points, c), thresh) == MadBasedOutlier(points, thresh)
  {
    var shifted := Shift(points, c);
    MedianShift(points, c);
    assert AbsoluteDeviations(shifted, Median(shifted)) == AbsoluteDeviations(points, Median(points));
  }

  /** A larger deviation exceeds whenever a smaller one does. */
  lemma ScaledDeviationMonotone(d1: real, d2: real, mad: real, thresh: real)
    requires d1 <= d2
    ensures ScaledDeviationExceeds(d1, mad, thresh) ==> ScaledDeviationExceeds(d2, mad, thresh)
  {
  }

  /** A zero deviation does not exceed a non-negative threshold. */
  lemma ZeroDeviationNotExceeding(mad: real, thresh: real)
    requires mad > 0.0 && thresh >= 0.0
    ensures !ScaledDeviationExceeds(0.0, mad, thresh)
  {
    ScaleMonotone(mad, 0.0, thresh);
  }

  /** With a non-negative threshold a point at the median is never flagged,
      and a point at least as far from the median as a flagged one is
      flagged too. */
  lemma MadFlagsByDistance(points: seq<real>, thresh: real, i: nat, j: nat)
    requires |points| > 0 && Mad(points) > 0.0 && i < |points| && j < |points|
    ensures thresh >= 0.0 && points[i] == Median(points) ==> !MadBasedOutlier(points, thresh)[i]
    ensures MadBasedOutlier(points, thresh)[i]
      && Abs(points[i] - Median(points)) <= Abs(points[j] - Median(points))
      ==> MadBasedOutlier(points, thresh)[j]
  {
    var m := Median(points);
    var di := Abs(points[i] - m);
    var dj := Abs(points[j] - m);
    if thresh >= 0.0 && points[i] == m {
      assert di == 0.0;
      ZeroDeviationNotExceeding(Mad(points), thresh);
    }
    if di <= dj {
      ScaledDeviationMonotone(di, dj, Mad(points), thresh);
    }
  }

  /** The default `thresh` of `mad_based_outlier`. */
  const DefaultMadThreshold: real := 2.5

  /** Called with its default threshold, `mad_based_outlier` never flags a
      point equal to the median. */
  lemma DefaultMadSparesMedian(points: seq<real>, i: nat)
    requires |points| > 0 && Mad(points) > 0.0 && i < |points|
    requires points[i] == Median(points)
    ensures !MadBasedOutlier(points, DefaultMadThreshold)[i]
  {
    MadFlagsByDistance(points, DefaultMadThreshold, i, i);
  }
}
