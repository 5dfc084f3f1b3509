/** The plot's two-colour split of the series: the days colder than the plot
    threshold (drawn grey) and the days at or above it (drawn black). */
module Partition {

  import ThresholdTable

  /** One scatter point: a day's position in the series and its temperature. */
  datatype Point = Point(day: nat, temp: real)

  /** The series as a table of dated points, in day order. */
  function Dated(data: seq<real>): (ps: seq<Point>)
    ensures |ps| == |data|
    ensures forall i :: 0 <= i < |ps| ==> ps[i] == Point(i, data[i])
  {
    seq(|data|, i requires 0 <= i < |data| => Point(i, data[i]))
  }

  ghost predicate DaysIncreasing(ps: seq<Point>)
  {
    forall i, j :: 0 <= i < j < |ps| ==> ps[i].day < ps[j].day
  }

  lemma DatedDaysIncreasing(data: seq<real>)
    ensures DaysIncreasing(Dated(data))
  {
  }

  /** A point is in the dated table exactly when it records a day's reading. */
  lemma DatedMembers(data: seq<real>)
    ensures forall p: Point :: p in Dated(data) <==> p.day < |data| && data[p.day] == p.temp
  {
    var ps := Dated(data);
    forall p: Point | p.day < |data| && data[p.day] == p.temp
      ensures p in ps
    {
      assert ps[p.day] == p;
    }
  }

  /** The rows kept by the mask `Temperature < threshold`. */
  function KeepBelow(ps: seq<Point>, threshold: real): (r: seq<Point>)
    ensures |r| <= |ps|
    ensures forall p :: p in r <==> p in ps && p.temp < threshold
  {
    if |ps| == 0 then []
    else if ps[0].temp < threshold then [ps[0]] + KeepBelow(ps[1..], threshold)
    else KeepBelow(ps[1..], threshold)
  }

  /** The rows kept by the mask `Temperature >= threshold`. */
  function KeepAtOrAbove(ps: seq<Point>, threshold: real): (r: seq<Point>)
    ensures |r| <= |ps|
    ensures forall p :: p in r <==> p in ps && p.temp >= threshold
  {
    if |ps| == 0 then []
    else if ps[0].temp >= threshold then [ps[0]] + KeepAtOrAbove(ps[1..], threshold)
    else KeepAtOrAbove(ps[1..], threshold)
  }

  /** A filtered table keeps the original order. */
  lemma {:induction false} KeepBelowKeepsOrder(ps: seq<Point>, threshold: real)
    requires DaysIncreasing(ps)
    ensures DaysIncreasing(KeepBelow(ps, threshold))
    decreases |ps|
  {
    if |ps| > 0 {
      KeepBelowKeepsOrder(ps[1..], threshold);
      var rest := KeepBelow(ps[1..], threshold);
      forall k | 0 <= k < |rest|
        ensures ps[0].day < rest[k].day
      {
        assert rest[k] in ps[1..];
      }
    }
  }

  lemma {:induction false} KeepAtOrAboveKeepsOrder(ps: seq<Point>, threshold: real)
    requires DaysIncreasing(ps)
    ensures DaysIncreasing(KeepAtOrAbove(ps, threshold))
    decreases |ps|
  {
    if |ps| > 0 {
      KeepAtOrAboveKeepsOrder(ps[1..], threshold);
      var rest := KeepAtOrAbove(ps[1..], threshold);
      forall k | 0 <= k < |rest|
        ensures ps[0].day < rest[k].day
      {
        assert rest[k] in ps[1..];
      }
    }
  }

  /** Together the two halves hold every row exactly once. */
  lemma {:induction false} PartitionIsPermutation(ps: seq<Point>, threshold: real)
    ensures multiset(KeepBelow(ps, threshold)) + multiset(KeepAtOrAbove(ps, threshold)) == multiset(ps)
    decreases |ps|
  {
    if |ps| > 0 {
      PartitionIsPermutation(ps[1..], threshold);
      assert ps == [ps[0]] + ps[1..];
    }
  }

  lemma SplitSizes(ps: seq<Point>, threshold: real)
    ensures |KeepBelow(ps, threshold)| + |KeepAtOrAbove(ps, threshold)| == |ps|
  {
    PartitionIsPermutation(ps, threshold);
    assert |multiset(KeepBelow(ps, threshold))| + |multiset(KeepAtOrAbove(ps, threshold))| == |multiset(ps)|;
  }

  /** The split the plot draws: grey points strictly below the threshold, black
      points at or above it, each half in day order, no day in both halves and
      every day in one of them. */
  function Split(data: seq<real>, threshold: real): (r: (seq<Point>, seq<Point>))
    ensures forall i :: 0 <= i < |data| ==> (data[i] < threshold <==> Point(i, data[i]) in r.0)
    ensures forall i :: 0 <= i < |data| ==> (data[i] >= threshold <==> Point(i, data[i]) in r.1)
    ensures forall p :: p in r.0 ==> p.day < |data| && data[p.day] == p.temp && p.temp < threshold
    ensures forall p :: p in r.1 ==> p.day < |data| && data[p.day] == p.temp && p.temp >= threshold
    ensures DaysIncreasing(r.0) && DaysIncreasing(r.1)
    ensures forall p, q :: p in r.0 && q in r.1 ==> p.day != q.day
    ensures |r.0| + |r.1| == |data|
  {
    var ps := Dated(data);
    DatedMembers(data);
    DatedDaysIncreasing(data);
    KeepBelowKeepsOrder(ps, threshold);
    KeepAtOrAboveKeepsOrder(ps, threshold);
    var below := KeepBelow(ps, threshold);
    var above := KeepAtOrAbove(ps, threshold);
    SplitSizes(ps, threshold);
    (below, above)
  }

  ghost function DaysOf(ps: seq<Point>): set<nat>
  {
    set p | p in ps :: p.day
  }

  lemma {:induction false} DistinctDaysCount(ps: seq<Point>)
    requires DaysIncreasing(ps)
    ensures |DaysOf(ps)| == |ps|
    decreases |ps|
  {
    if |ps| > 0 {
      DistinctDaysCount(ps[1..]);
      assert DaysOf(ps) == {ps[0].day} + DaysOf(ps[1..]);
      assert ps[0].day !in DaysOf(ps[1..]);
    }
  }

  /** The plot's grey points are exactly as many as the table's days-below
      count at the same temperature. */
  lemma BelowCountMatchesTable(data: seq<real>, threshold: real)
    ensures |Split(data, threshold).0| == ThresholdTable.CountBelow(data, threshold)
  {
    var below := Split(data, threshold).0;
    DistinctDaysCount(below);
    assert DaysOf(below) == ThresholdTable.DaysBelow(data, threshold) by {
      forall d: nat | d in ThresholdTable.DaysBelow(data, threshold)
        ensures d in DaysOf(below)
      {
        assert Point(d, data[d]) in below;
      }
    }
    ThresholdTable.CountBelowIsNumberOfDays(data, threshold);
  }
}
