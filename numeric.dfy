/** Exact-arithmetic stand-ins for the library routines the outlier
    detectors lean on: Python's `sorted` and `sum`, and numpy's
    `percentile` and `median` (linear interpolation). Values are `real`,
    so there is no rounding. */
module Numeric {

  /** Ascending order. */
  predicate Sorted(s: seq<real>) {
    forall i, j :: 0 <= i < j < |s| ==> s[i] <= s[j]
  }

  /** The tail of an ascending sequence is ascending. */
  lemma SortedTail(a: seq<real>)
    requires Sorted(a) && a != []
    ensures Sorted(a[1..])
  {
  }

  /** Inserts `x` before the first element it does not exceed. */
  function Insert(x: real, s: seq<real>): (r: seq<real>)
    ensures |r| == |s| + 1
  {
    if s == [] || x <= s[0] then [x] + s else [s[0]] + Insert(x, s[1..])
  }

  /** Python's `sorted` on numbers (insertion sort; see SortedUnique for
      why the algorithm does not matter). */
  function Sort(s: seq<real>): (r: seq<real>)
    ensures |r| == |s|
  {
    if s == [] then [] else Insert(s[0], Sort(s[1..]))
  }

  lemma {:induction false} InsertMultiset(x: real, s: seq<real>)
    ensures multiset(Insert(x, s)) == multiset(s) + multiset{x}
  {
    if s != [] && x > s[0] {
      assert s == [s[0]] + s[1..];
      InsertMultiset(x, s[1..]);
    }
  }

  /** Inserting keeps an ascending sequence ascending. */
  lemma {:induction false} InsertSorted(x: real, s: seq<real>)
    requires Sorted(s)
    ensures Sorted(Insert(x, s))
    ensures Insert(x, s)[0] == x || Insert(x, s)[0] == s[0]
  {
    if s != [] && x > s[0] {
      SortedTail(s);
      InsertSorted(x, s[1..]);
      var r := Insert(x, s[1..]);
      assert s[0] <= r[0];
      assert Insert(x, s) == [s[0]] + r;
    }
  }

  /** `Sort` returns an ascending rearrangement of its input. */
  lemma {:induction false} SortCorrect(s: seq<real>)
    ensures Sorted(Sort(s))
    ensures multiset(Sort(s)) == multiset(s)
  {
    if s != [] {
      assert s == [s[0]] + s[1..];
      SortCorrect(s[1..]);
      InsertMultiset(s[0], Sort(s[1..]));
      InsertSorted(s[0], Sort(s[1..]));
    }
  }

  /** Every member of an ascending sequence lies between its ends. */
  lemma SortedBounds(t: seq<real>, x: real)
    requires Sorted(t) && x in multiset(t)
    ensures t[0] <= x <= t[|t| - 1]
  {
    assert x in t;
    var j :| 0 <= j < |t| && t[j] == x;
  }

  /** Removing the first element removes it from the multiset. */
  lemma TailMultiset(a: seq<real>)
    requires a != []
    ensures multiset(a[1..]) == multiset(a) - multiset{a[0]}
  {
    assert a == [a[0]] + a[1..];
  }

  /** Two ascending arrangements of one multiset start alike. */
  lemma SortedSameHead(a: seq<real>, b: seq<real>)
    requires Sorted(a) && Sorted(b) && a != [] && b != []
    requires multiset(a) == multiset(b)
    ensures a[0] == b[0]
  {
    assert a[0] in multiset(b) && b[0] in multiset(a);
    SortedBounds(b, a[0]);
    SortedBounds(a, b[0]);
  }

  /** There is only one ascending arrangement of a multiset of numbers,
      so any sort (Python's Timsort included) yields the same sequence. */
  lemma {:induction false} SortedUnique(a: seq<real>, b: seq<real>)
    requires Sorted(a) && Sorted(b)
    requires multiset(a) == multiset(b)
    ensures a == b
  {
    assert |a| == |multiset(a)| == |multiset(b)| == |b|;
    if a != [] {
      SortedSameHead(a, b);
      TailMultiset(a);
      TailMultiset(b);
      SortedTail(a);
      SortedTail(b);
      SortedUnique(a[1..], b[1..]);
      assert a == [a[0]] + a[1..];
      assert b == [b[0]] + b[1..];
    }
  }

  /** Sorting depends only on the multiset of the input. */
  lemma SortPermutationInvariant(a: seq<real>, b: seq<real>)
    requires multiset(a) == multiset(b)
    ensures Sort(a) == Sort(b)
  {
    SortCorrect(a);
    SortCorrect(b);
    SortedUnique(Sort(a), Sort(b));
  }

  /** An ascending input is its own sorted form. */
  lemma SortOfSorted(s: seq<real>)
    requires Sorted(s)
    ensures Sort(s) == s
  {
    SortCorrect(s);
    SortedUnique(Sort(s), s);
  }

  /** Every input value lies between the first and last sorted values. */
  lemma SortBounds(s: seq<real>, i: int)
    requires 0 <= i < |s|
    ensures Sort(s)[0] <= s[i] <= Sort(s)[|s| - 1]
  {
    SortCorrect(s);
    RearrangedBounds(s, Sort(s), i);
  }

  /** An ascending rearrangement of `s` has every value of `s` between its
      ends. */
  lemma RearrangedBounds(s: seq<real>, t: seq<real>, i: int)
    requires Sorted(t) && multiset(t) == multiset(s) && 0 <= i < |s|
    ensures t[0] <= s[i] <= t[|t| - 1]
  {
    assert s[i] in multiset(s);
    SortedBounds(t, s[i]);
  }

  /** The sorted ends are input values. */
  lemma SortEndsAreInputs(s: seq<real>)
    requires |s| > 0
    ensures Sort(s)[0] in s && Sort(s)[|s| - 1] in s
  {
    var t := Sort(s);
    SortCorrect(s);
    assert t[0] in multiset(t) && t[|t| - 1] in multiset(t);
  }

  /** The smallest value. */
  function Min(s: seq<real>): (r: real)
    requires |s| > 0
    ensures r in s
    ensures forall i :: 0 <= i < |s| ==> r <= s[i]
  {
    SortEndsAreInputs(s);
    forall i | 0 <= i < |s| ensures Sort(s)[0] <= s[i] {
      SortBounds(s, i);
    }
    Sort(s)[0]
  }

  /** The largest value. */
  function Max(s: seq<real>): (r: real)
    requires |s| > 0
    ensures r in s
    ensures forall i :: 0 <= i < |s| ==> s[i] <= r
  {
    SortEndsAreInputs(s);
    forall i | 0 <= i < |s| ensures s[i] <= Sort(s)[|s| - 1] {
      SortBounds(s, i);
    }
    Sort(s)[|s| - 1]
  }

  /** Python's `sum`, left to right. */
  function Sum(s: seq<real>): (r: real)
    ensures (forall i :: 0 <= i < |s| ==> s[i] >= 0.0) ==> r >= 0.0
  {
    if s == [] then 0.0 else Sum(s[..|s| - 1]) + s[|s| - 1]
  }

  /** Absolute value: Python's `sqrt(x**2)` for one coordinate. */
  function Abs(x: real): (r: real)
    ensures r >= 0.0 && (r == x || r == -x)
  {
    if x < 0.0 then -x else x
  }

  /** The absolute value is the non-negative square root of the square. */
  lemma AbsSquare()
    ensures forall x: real :: Abs(x) * Abs(x) == x * x
  {
    forall x: real
      ensures Abs(x) * Abs(x) == x * x
    {
      if x < 0.0 {
        assert Abs(x) * Abs(x) == (-x) * (-x);
      }
    }
  }

  /** Dividing a non-negative number by at least one shrinks it. */
  lemma DivideByAtLeastOne(a: real, q: real)
    requires a >= 0.0 && q >= 1.0
    ensures 0.0 <= a / q <= a
  {
    assert a / q * q == a;
  }

  /** Comparing a quotient with `t` is comparing the dividend with `t*m`. */
  lemma QuotientAbove(x: real, m: real, t: real)
    requires m > 0.0
    ensures x / m > t <==> x > t * m
  {
    assert x / m * m == x;
    if x / m > t {
      assert (x / m - t) * m > 0.0;
    } else {
      assert (t - x / m) * m >= 0.0;
    }
  }

  /** Scaling a non-negative number by a larger factor gives more. */
  lemma ScaleMonotone(a: real, t1: real, t2: real)
    requires a >= 0.0 && t1 <= t2
    ensures t1 * a <= t2 * a
  {
    assert t2 * a - t1 * a == (t2 - t1) * a;
  }

  /** Extending the summed prefix by one element adds that element. */
  lemma SumPrefix(s: seq<real>, k: nat)
    requires k < |s|
    ensures Sum(s[..k + 1]) == Sum(s[..k]) + s[k]
  {
    assert s[..k + 1][..k] == s[..k];
  }

  /** `s` with the constant `c` added to every element. */
  function Shift(s: seq<real>, c: real): (r: seq<real>)
    ensures |r| == |s|
  {
    seq(|s|, i requires 0 <= i < |s| => s[i] + c)
  }

  lemma ShiftConcat(a: seq<real>, b: seq<real>, c: real)
    ensures Shift(a + b, c) == Shift(a, c) + Shift(b, c)
  {
    assert forall i :: 0 <= i < |a + b| ==> Shift(a + b, c)[i] == (Shift(a, c) + Shift(b, c))[i];
  }

  /** Adding a constant keeps the order. */
  lemma ShiftSorted(s: seq<real>, c: real)
    requires Sorted(s)
    ensures Sorted(Shift(s, c))
  {
  }

  lemma {:induction false} InsertShift(x: real, s: seq<real>, c: real)
    ensures Insert(x + c, Shift(s, c)) == Shift(Insert(x, s), c)
  {
    var sc := Shift(s, c);
    if s == [] || x <= s[0] {
      assert Insert(x, s) == [x] + s;
      assert Insert(x + c, sc) == [x + c] + sc;
      ShiftConcat([x], s, c);
      assert Shift([x], c) == [x + c];
    } else {
      assert sc[1..] == Shift(s[1..], c);
      assert Insert(x, s) == [s[0]] + Insert(x, s[1..]);
      assert Insert(x + c, sc) == [s[0] + c] + Insert(x + c, Shift(s[1..], c));
      InsertShift(x, s[1..], c);
      ShiftConcat([s[0]], Insert(x, s[1..]), c);
      assert Shift([s[0]], c) == [s[0] + c];
    }
  }

  /** Sorting commutes with adding a constant to every element. */
  lemma {:induction false} SortShift(s: seq<real>, c: real)
    ensures Sort(Shift(s, c)) == Shift(Sort(s), c)
  {
    if s != [] {
      var sc := Shift(s, c);
      assert sc[0] == s[0] + c;
      assert sc[1..] == Shift(s[1..], c);
      assert Sort(sc) == Insert(s[0] + c, Sort(Shift(s[1..], c)));
      SortShift(s[1..], c);
      InsertShift(s[0], Sort(s[1..]), c);
    }
  }

  /** `a*f` lies between 0 and `a` when `f` is a fraction. */
  lemma ScaleByFraction(a: real, f: real)
    requires a >= 0.0 && 0.0 <= f <= 1.0
    ensures 0.0 <= f * a <= a
  {
  }

  /** `a * p` is at most `100 * a` when `p` is a percentage. */
  lemma PercentOfBound(a: nat, p: nat)
    requires p <= 100
    ensures a * p <= 100 * a
  {
    assert 100 * a - a * p == a * (100 - p);
  }

  /** numpy reads the percentile `p` of `n` sorted values at the
      fractional position (n-1)*p/100. This is that position times 100,
      which is whole when `p` is (as `np.arange(0, 100, 25)` gives). */
  function ScaledPosition(n: nat, p: nat): (k: nat)
    requires n > 0 && p <= 100
    ensures k <= 100 * (n - 1)
  {
    PercentOfBound(n - 1, p);
    (n - 1) * p
  }

  /** Linear interpolation from `a` (at `f` = 0) to `b` (at `f` = 1). */
  function Lerp(a: real, b: real, f: real): (r: real)
    requires a <= b && 0.0 <= f <= 1.0
    ensures a <= r <= b
  {
    var d := b - a;
    ScaleByFraction(d, f);
    a + f * d
  }

  /** The percentile `p` of an ascending sequence, read at position
      (N-1)*p/100: the value below it plus that fraction of the step to
      the value above it. */
  function SortedPercentile(t: seq<real>, p: nat): (r: real)
    requires |t| > 0 && Sorted(t) && p <= 100
    ensures t[0] <= r <= t[|t| - 1]
  {
    var k := ScaledPosition(|t|, p);
    var lo := k / 100;
    var fraction := (k % 100) as real / 100.0;
    if lo + 1 < |t| then Lerp(t[lo], t[lo + 1], fraction) else t[lo]
  }

  /** numpy's `percentile` with its default linear interpolation. */
  function Percentile(s: seq<real>, p: nat): (r: real)
    requires |s| > 0 && p <= 100
    ensures Min(s) <= r <= Max(s)
  {
    SortCorrect(s);
    SortedPercentile(Sort(s), p)
  }

  /** Percentages accepted by `percentile`: each between 0 and 100. */
  predicate ValidPercentages(ps: seq<nat>) {
    forall i :: 0 <= i < |ps| ==> ps[i] <= 100
  }

  /** numpy's `percentile` given a sequence of percentages: one result per
      percentage, in order. */
  function Percentiles(s: seq<real>, ps: seq<nat>): (r: seq<real>)
    requires |s| > 0 && ValidPercentages(ps)
    ensures |r| == |ps|
    ensures forall i :: 0 <= i < |r| ==> Min(s) <= r[i] <= Max(s)
  {
    if ps == [] then []
    else [Percentile(s, ps[0])] + Percentiles(s, ps[1..])
  }

  /** Entry `i` of `Percentiles` is the percentile at `ps[i]`. */
  lemma {:induction false} PercentilesAt(s: seq<real>, ps: seq<nat>, i: nat)
    requires |s| > 0 && ValidPercentages(ps) && i < |ps|
    ensures Percentiles(s, ps)[i] == Percentile(s, ps[i])
    decreases i
  {
    if i > 0 {
      PercentilesAt(s, ps[1..], i - 1);
    }
  }

  /** The middle value of an ascending sequence, or the mean of the two
      middle values when the length is even. */
  function SortedMedian(t: seq<real>): (r: real)
    requires |t| > 0 && Sorted(t)
    ensures t[0] <= r <= t[|t| - 1]
  {
    var n := |t|;
    if n % 2 == 1 then t[n / 2] else (t[n / 2 - 1] + t[n / 2]) / 2.0
  }

  /** numpy's `median`. */
  function Median(s: seq<real>): (r: real)
    requires |s| > 0
    ensures Min(s) <= r <= Max(s)
  {
    SortCorrect(s);
    SortedMedian(Sort(s))
  }

  /** The 0th percentile is the minimum. */
  lemma PercentileZeroIsMin(s: seq<real>)
    requires |s| > 0
    ensures Percentile(s, 0) == Min(s)
  {
    SortCorrect(s);
  }

  lemma SortedPercentileFifty(t: seq<real>)
    requires |t| > 0 && Sorted(t)
    ensures SortedPercentile(t, 50) == SortedMedian(t)
  {
    var n := |t|;
    var m := n / 2;
    var k := ScaledPosition(n, 50);
    if n % 2 == 1 {
      assert k == 100 * m;
      assert k / 100 == m && k % 100 == 0;
    } else {
      assert k == 100 * (m - 1) + 50;
      assert k / 100 == m - 1 && k % 100 == 50;
    }
  }

  /** The 50th percentile is the median, as numpy defines both. */
  lemma PercentileFiftyIsMedian(s: seq<real>)
    requires |s| > 0
    ensures Percentile(s, 50) == Median(s)
  {
    SortCorrect(s);
    SortedPercentileFifty(Sort(s));
  }

  /** The median depends only on the multiset of the input. */
  lemma MedianPermutationInvariant(a: seq<real>, b: seq<real>)
    requires |a| > 0 && multiset(a) == multiset(b)
    ensures |b| > 0 && Median(a) == Median(b) && Min(a) == Min(b)
  {
    assert |a| == |multiset(a)| == |b|;
    SortPermutationInvariant(a, b);
  }

  /** Shifting an ascending sequence shifts its middle value. */
  lemma SortedMedianShift(t: seq<real>, c: real)
    requires |t| > 0 && Sorted(t)
    ensures Sorted(Shift(t, c)) && SortedMedian(Shift(t, c)) == SortedMedian(t) + c
  {
    ShiftSorted(t, c);
    var n := |t|;
    var u := Shift(t, c);
    if n % 2 == 1 {
      assert u[n / 2] == t[n / 2] + c;
    } else {
      assert u[n / 2 - 1] == t[n / 2 - 1] + c;
      assert u[n / 2] == t[n / 2] + c;
    }
  }

  /** Adding a constant to every value moves the median by that constant. */
  lemma MedianShift(s: seq<real>, c: real)
    requires |s| > 0
    ensures Median(Shift(s, c)) == Median(s) + c
  {
    var t := Sort(s);
    SortCorrect(s);
    SortShift(s, c);
    SortedMedianShift(t, c);
  }
}
