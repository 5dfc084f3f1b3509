/** Trailing rolling means over the daily minimum-temperature series, as the
    plot computes them with a window of 7 or 30 days and `min_periods=1`:
    every position has a mean over however many days the window holds. */
module Rolling {

  const WeeklyWindow: nat := 7
  const MonthlyWindow: nat := 30

  /** Sum of a series, added up from the front. */
  function Sum(s: seq<real>): real
  {
    if |s| == 0 then 0.0 else Sum(s[..|s| - 1]) + s[|s| - 1]
  }

  /** Arithmetic mean of a non-empty series. */
  function Mean(s: seq<real>): real
    requires |s| > 0
  {
    Sum(s) / (|s| as real)
  }

  /** Index of the first day in the trailing window of width `w` that ends
      just before day `n`. */
  function WindowStart(n: nat, w: nat): (lo: nat)
    ensures lo <= n
    ensures n - lo == if n < w then n else w
  {
    if n >= w then n - w else 0
  }

  /** The days `data[max(0, i-w+1) .. i]`, both ends included. */
  function Window(data: seq<real>, i: nat, w: nat): (win: seq<real>)
    requires i < |data| && w >= 1
    ensures 1 <= |win| <= w
    ensures win[|win| - 1] == data[i]
    ensures i < w ==> win == data[..i + 1]
  {
    data[WindowStart(i + 1, w)..i + 1]
  }

  /** The rolling means by their definition: entry `i` is the mean of the
      window ending at day `i`. */
  function RollingMeans(data: seq<real>, w: nat): (r: seq<real>)
    requires w >= 1
    ensures |r| == |data|
    ensures forall i :: 0 <= i < |data| && i < w ==> r[i] == Mean(data[..i + 1])
  {
    seq(|data|, i requires 0 <= i < |data| => Mean(Window(data, i, w)))
  }

  lemma {:induction false} SumCons(x: real, s: seq<real>)
    ensures Sum([x] + s) == x + Sum(s)
    decreases |s|
  {
    if |s| == 0 {
      assert ([x] + s)[..0] == [];
    } else {
      assert ([x] + s)[..|s|] == [x] + s[..|s| - 1];
      SumCons(x, s[..|s| - 1]);
    }
  }

  /** Moving the right end of a slice one day forward adds that day. */
  lemma SumExtendRight(data: seq<real>, lo: nat, hi: nat)
    requires lo <= hi < |data|
    ensures Sum(data[lo..hi + 1]) == Sum(data[lo..hi]) + data[hi]
  {
    assert data[lo..hi + 1][..hi - lo] == data[lo..hi];
  }

  /** Moving the left end of a slice one day forward drops that day. */
  lemma SumDropLeft(data: seq<real>, lo: nat, hi: nat)
    requires lo < hi <= |data|
    ensures Sum(data[lo + 1..hi]) == Sum(data[lo..hi]) - data[lo]
  {
    assert data[lo..hi] == [data[lo]] + data[lo + 1..hi];
    SumCons(data[lo], data[lo + 1..hi]);
  }

  /** The trailing rolling mean, computed the way a rolling aggregator does
      it: one running window sum, adding the day that enters the window and
      subtracting the day that leaves it. */
  method RollingMean(data: seq<real>, w: nat) returns (r: seq<real>)
    requires w >= 1
    ensures |r| == |data|
    ensures forall i :: 0 <= i < |data| ==> r[i] == Mean(Window(data, i, w))
    ensures forall i :: 0 <= i < |data| && i < w ==> r[i] == Mean(data[..i + 1])
  {
    r := [];
    var acc := 0.0;
    var i := 0;
    while i < |data|
      invariant 0 <= i <= |data|
      invariant |r| == i
      invariant forall k :: 0 <= k < i ==> r[k] == Mean(Window(data, k, w))
      invariant acc == Sum(data[WindowStart(i, w)..i])
    {
      RollingStep(data, w, i, r, acc);
      acc := acc + data[i] - (if i >= w then data[i - w] else 0.0);
      r := r + [acc / ((i + 1 - WindowStart(i + 1, w)) as real)];
      i := i + 1;
    }
  }

  /** One turn of the sliding window: add the day entering the window,
      subtract the day leaving it, and append the new mean. */
  lemma RollingStep(data: seq<real>, w: nat, i: nat, r: seq<real>, acc: real)
    requires w >= 1 && i < |data|
    requires |r| == i
    requires forall k :: 0 <= k < i ==> r[k] == Mean(Window(data, k, w))
    requires acc == Sum(data[WindowStart(i, w)..i])
    ensures var next := acc + data[i] - (if i >= w then data[i - w] else 0.0);
      && next == Sum(data[WindowStart(i + 1, w)..i + 1])
      && forall k :: 0 <= k < i + 1 ==>
           (r + [next / ((i + 1 - WindowStart(i + 1, w)) as real)])[k] == Mean(Window(data, k, w))
  {
    var next := acc + data[i] - (if i >= w then data[i - w] else 0.0);
    SumExtendRight(data, WindowStart(i, w), i);
    if i >= w {
      SumDropLeft(data, i - w, i + 1);
    }
    assert next == Sum(data[WindowStart(i + 1, w)..i + 1]);
    MeanFromSum(data, i, w, next);
  }

  /** The running sum of a window, over the window's length, is its mean. */
  lemma MeanFromSum(data: seq<real>, i: nat, w: nat, acc: real)
    requires i < |data| && w >= 1
    requires acc == Sum(data[WindowStart(i + 1, w)..i + 1])
    ensures acc / ((i + 1 - WindowStart(i + 1, w)) as real) == Mean(Window(data, i, w))
  {
  }

  /** Both overlay series the plot computes: the weekly and the monthly
      rolling means, each aligned day by day with the input. */
  method RollingAverages(data: seq<real>) returns (weekly: seq<real>, monthly: seq<real>)
    ensures weekly == RollingMeans(data, WeeklyWindow)
    ensures monthly == RollingMeans(data, MonthlyWindow)
  {
    weekly := RollingMean(data, WeeklyWindow);
    monthly := RollingMean(data, MonthlyWindow);
  }

  /** Bounds on a sum from bounds on its terms. */
  lemma {:induction false} SumBounds(s: seq<real>, lo: real, hi: real)
    requires forall k :: 0 <= k < |s| ==> lo <= s[k] <= hi
    ensures (|s| as real) * lo <= Sum(s) <= (|s| as real) * hi
    decreases |s|
  {
    if |s| > 0 {
      var n := |s| - 1;
      SumBounds(s[..n], lo, hi);
      assert (|s| as real) * lo == (n as real) * lo + lo;
      assert (|s| as real) * hi == (n as real) * hi + hi;
    }
  }

  lemma DivideBounds(total: real, n: real, lo: real, hi: real)
    requires n > 0.0
    requires n * lo <= total <= n * hi
    ensures lo <= total / n <= hi
  {
    assert (n * lo) / n == lo;
    assert (n * hi) / n == hi;
  }

  /** A rolling mean never leaves the range of the days it averages. */
  lemma RollingMeanWithinWindow(data: seq<real>, w: nat, i: nat, lo: real, hi: real)
    requires w >= 1 && i < |data|
    requires forall k :: 0 <= k < |Window(data, i, w)| ==> lo <= Window(data, i, w)[k] <= hi
    ensures lo <= RollingMeans(data, w)[i] <= hi
  {
    var win := Window(data, i, w);
    assert RollingMeans(data, w)[i] == Mean(win);
    MeanWithin(win, lo, hi);
  }

  /** A mean lies between any bounds of the values it averages. */
  lemma MeanWithin(s: seq<real>, lo: real, hi: real)
    requires |s| > 0
    requires forall k :: 0 <= k < |s| ==> lo <= s[k] <= hi
    ensures lo <= Mean(s) <= hi
  {
    SumBounds(s, lo, hi);
    DivideBounds(Sum(s), |s| as real, lo, hi);
  }

  lemma EightDaySums(data: seq<real>)
    requires data == [1.0, 2.0, 3.0, 4.0, 5.0, 6.0, 7.0, 8.0]
    ensures Sum(data[..1]) == 1.0 && Sum(data[..2]) == 3.0 && Sum(data[..3]) == 6.0
    ensures Sum(data[..4]) == 10.0 && Sum(data[..5]) == 15.0 && Sum(data[..6]) == 21.0
    ensures Sum(data[..7]) == 28.0 && Sum(data[..8]) == 36.0
  {
    assert Sum(data[..0]) == 0.0;
    forall n | 1 <= n <= 8
      ensures Sum(data[..n]) == Sum(data[..n - 1]) + data[n - 1]
    {
      assert data[..n][..n - 1] == data[..n - 1];
    }
  }

  /** Day 8's weekly window drops day 1: it averages days 2 to 8. */
  lemma LastWeeklyMean(data: seq<real>)
    requires data == [1.0, 2.0, 3.0, 4.0, 5.0, 6.0, 7.0, 8.0]
    requires Sum(data[..8]) == 36.0
    ensures RollingMeans(data, 7)[7] == 5.0
  {
    assert Window(data, 7, 7) == data[1..8];
    SumDropLeft(data, 0, 8);
    assert data[0..8] == data[..8];
    assert Sum(data[1..8]) == 35.0;
  }

  /** Before the window fills, day `i`'s mean is the running total over the
      `i + 1` days so far. */
  lemma PrefixMeanIs(data: seq<real>, w: nat, i: nat, total: real)
    requires w >= 1 && i < |data| && i < w
    requires Sum(data[..i + 1]) == total
    ensures RollingMeans(data, w)[i] == total / ((i + 1) as real)
  {
    assert Window(data, i, w) == data[..i + 1];
  }

  /** The eight entries of the weekly means of days 1, 2, ..., 8. */
  lemma WeeklyEntries(data: seq<real>)
    requires data == [1.0, 2.0, 3.0, 4.0, 5.0, 6.0, 7.0, 8.0]
    ensures var r := RollingMeans(data, 7);
      && |r| == 8
      && r[0] == 1.0 && r[1] == 1.5 && r[2] == 2.0 && r[3] == 2.5
      && r[4] == 3.0 && r[5] == 3.5 && r[6] == 4.0 && r[7] == 5.0
  {
    EightDaySums(data);
    PrefixMeanIs(data, 7, 0, 1.0);
    PrefixMeanIs(data, 7, 1, 3.0);
    PrefixMeanIs(data, 7, 2, 6.0);
    PrefixMeanIs(data, 7, 3, 10.0);
    PrefixMeanIs(data, 7, 4, 15.0);
    PrefixMeanIs(data, 7, 5, 21.0);
    PrefixMeanIs(data, 7, 6, 28.0);
    LastWeeklyMean(data);
  }

  /** An eight-entry sequence is determined by its entries. */
  lemma EightEntries(r: seq<real>, e: seq<real>)
    requires |r| == |e| == 8
    requires r[0] == e[0] && r[1] == e[1] && r[2] == e[2] && r[3] == e[3]
    requires r[4] == e[4] && r[5] == e[5] && r[6] == e[6] && r[7] == e[7]
    ensures r == e
  {
  }

  /** The eight days 1, 2, ..., 8 with a seven-day window: the first six
      entries average the days so far, the seventh averages days 1-7 and the
      eighth days 2-8. */
  lemma WeeklyExample()
    ensures RollingMeans([1.0, 2.0, 3.0, 4.0, 5.0, 6.0, 7.0, 8.0], 7)
         == [1.0, 1.5, 2.0, 2.5, 3.0, 3.5, 4.0, 5.0]
  {
    var data := [1.0, 2.0, 3.0, 4.0, 5.0, 6.0, 7.0, 8.0];
    WeeklyEntries(data);
    EightEntries(RollingMeans(data, 7), [1.0, 1.5, 2.0, 2.5, 3.0, 3.5, 4.0, 5.0]);
  }
}
