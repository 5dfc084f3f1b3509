/** The threshold table: for every whole temperature `t` of the table slider's
    range, how many days of the series were strictly colder than `t`, and what
    proportion of all days that is; displayed with the warmest row first. */
module ThresholdTable {

  import opened Options

  /** Number of days strictly below `t`: the sum of the boolean mask `data < t`. */
  function CountBelow(data: seq<real>, t: real): (n: nat)
    ensures n <= |data|
  {
    if |data| == 0 then 0
    else CountBelow(data[..|data| - 1], t) + (if data[|data| - 1] < t then 1 else 0)
  }

  /** Independent reference: the set of days (indices) that were below `t`. */
  ghost function DaysBelow(data: seq<real>, t: real): set<nat>
  {
    set i: nat | i < |data| && data[i] < t
  }

  /** The count is exactly the number of days strictly below `t`. */
  lemma {:induction false} CountBelowIsNumberOfDays(data: seq<real>, t: real)
    ensures CountBelow(data, t) == |DaysBelow(data, t)|
    decreases |data|
  {
    if |data| > 0 {
      var n := |data| - 1;
      var prefix := data[..n];
      CountBelowIsNumberOfDays(prefix, t);
      if data[n] < t {
        assert DaysBelow(data, t) == DaysBelow(prefix, t) + {n};
        assert n !in DaysBelow(prefix, t);
      } else {
        assert DaysBelow(data, t) == DaysBelow(prefix, t);
      }
    }
  }

  /** A warmer threshold never counts fewer days. */
  lemma {:induction false} CountBelowMonotone(data: seq<real>, t1: real, t2: real)
    requires t1 <= t2
    ensures CountBelow(data, t1) <= CountBelow(data, t2)
    decreases |data|
  {
    if |data| > 0 {
      CountBelowMonotone(data[..|data| - 1], t1, t2);
    }
  }

  /** The values kept by the mask `data < high`, in their original order. */
  function BelowHigh(data: seq<real>, high: real): (r: seq<real>)
    ensures |r| <= |data|
    ensures forall k :: 0 <= k < |r| ==> r[k] < high
  {
    if |data| == 0 then []
    else BelowHigh(data[..|data| - 1], high) + (if data[|data| - 1] < high then [data[|data| - 1]] else [])
  }

  /** Prefiltering the series to the values below the table's upper bound
      changes no count at or below that bound. */
  lemma {:induction false} PrefilterRedundant(data: seq<real>, high: real, t: real)
    requires t <= high
    ensures CountBelow(BelowHigh(data, high), t) == CountBelow(data, t)
    decreases |data|
  {
    if |data| > 0 {
      var n := |data| - 1;
      var kept := BelowHigh(data[..n], high);
      PrefilterRedundant(data[..n], high, t);
      if data[n] < high {
        assert BelowHigh(data, high) == kept + [data[n]];
        assert (kept + [data[n]])[..|kept|] == kept;
        assert CountBelow(kept + [data[n]], t) == CountBelow(kept, t) + (if data[n] < t then 1 else 0);
      } else {
        assert BelowHigh(data, high) == kept + [];
        assert kept + [] == kept;
        assert !(data[n] < t);
      }
    }
  }

  /** `np.arange(low, high + 1)`: the swept whole temperatures, ascending. */
  function TempTable(low: int, high: int): (temps: seq<int>)
    ensures |temps| == RowCount(low, high)
    ensures forall i :: 0 <= i < |temps| ==> temps[i] == low + i
  {
    seq(RowCount(low, high), i => low + i)
  }

  /** How many whole temperatures lie in `[low, high]`. */
  function RowCount(low: int, high: int): nat
  {
    if high < low then 0 else high - low + 1
  }

  /** A proportion as numpy computes it: `0 / 0` is NaN. */
  datatype Ratio = Fraction(value: real) | NaN

  function Proportion(days: nat, total: nat): (p: Ratio)
    ensures p.NaN? <==> total == 0
  {
    if total == 0 then NaN else Fraction((days as real) / (total as real))
  }

  lemma PrefilterRedundantOverTable(data: seq<real>, temps: seq<int>, high: int)
    requires forall k :: 0 <= k < |temps| ==> temps[k] <= high
    ensures forall k :: 0 <= k < |temps| ==>
              CountBelow(BelowHigh(data, high as real), temps[k] as real) == CountBelow(data, temps[k] as real)
  {
    forall k | 0 <= k < |temps|
      ensures CountBelow(BelowHigh(data, high as real), temps[k] as real) == CountBelow(data, temps[k] as real)
    {
      PrefilterRedundant(data, high as real, temps[k] as real);
    }
  }

  /** `days_below_temp`: per swept temperature, the number of prefiltered
      values below it; `None` when there is no weather data. */
  function DaysBelowTemp(weather: Option<seq<real>>, low: int, high: int): (r: Option<seq<nat>>)
    ensures r.Some? <==> weather.Some?
    ensures r.Some? ==> |r.value| == RowCount(low, high)
    ensures r.Some? ==> forall i :: 0 <= i < |r.value| ==> r.value[i] == CountBelow(weather.value, (low + i) as real)
  {
    match weather
    case None => None
    case Some(data) =>
      var below := BelowHigh(data, high as real);
      var temps := TempTable(low, high);
      PrefilterRedundantOverTable(data, temps, high);
      Some(seq(|temps|, i requires 0 <= i < |temps| => CountBelow(below, temps[i] as real)))
  }

  /** `proportion_below_temp`: every count divided by the number of days. */
  function ProportionBelowTemp(weather: Option<seq<real>>, low: int, high: int): (r: Option<seq<Ratio>>)
    ensures r.Some? <==> weather.Some?
    ensures r.Some? ==> |r.value| == RowCount(low, high)
    ensures r.Some? ==> forall i :: 0 <= i < |r.value| ==>
              r.value[i] == Proportion(CountBelow(weather.value, (low + i) as real), |weather.value|)
  {
    match DaysBelowTemp(weather, low, high)
    case None => None
    case Some(days) =>
      Some(seq(|days|, i requires 0 <= i < |days| => Proportion(days[i], |weather.value|)))
  }

  datatype Row = Row(temp: int, daysBelow: nat, proportion: Ratio)

  /** The data frame before sorting: the three columns side by side. */
  function AscendingRows(weather: Option<seq<real>>, low: int, high: int): (r: Option<seq<Row>>)
    ensures r.Some? <==> weather.Some?
    ensures r.Some? ==> |r.value| == RowCount(low, high)
    ensures r.Some? ==> forall i :: 0 <= i < |r.value| ==> r.value[i] == TableRow(weather.value, low + i)
  {
    match weather
    case None => None
    case Some(_) =>
      var temps := TempTable(low, high);
      var days := DaysBelowTemp(weather, low, high).value;
      var props := ProportionBelowTemp(weather, low, high).value;
      Some(seq(|temps|, i requires 0 <= i < |temps| => Row(temps[i], days[i], props[i])))
  }

  /** The row the table shows for temperature `t`, by definition. */
  function TableRow(data: seq<real>, t: int): Row
  {
    var days := CountBelow(data, t as real);
    Row(t, days, Proportion(days, |data|))
  }

  ghost predicate SortedDesc(rows: seq<Row>)
  {
    forall i, j :: 0 <= i < j < |rows| ==> rows[i].temp >= rows[j].temp
  }

  ghost predicate StrictlyAscending(rows: seq<Row>)
  {
    forall i, j :: 0 <= i < j < |rows| ==> rows[i].temp < rows[j].temp
  }

  function InsertDesc(x: Row, rows: seq<Row>): (r: seq<Row>)
    requires SortedDesc(rows)
    ensures |r| == |rows| + 1
    ensures forall k :: 0 <= k < |r| ==> r[k] == x || r[k] in rows
    ensures SortedDesc(r)
    ensures multiset(r) == multiset(rows) + multiset{x}
  {
    if |rows| == 0 then [x]
    else if x.temp >= rows[0].temp then [x] + rows
    else
      var rest := InsertDesc(x, rows[1..]);
      InsertDescStep(x, rows, rest);
      [rows[0]] + rest
  }

  lemma InsertDescStep(x: Row, rows: seq<Row>, rest: seq<Row>)
    requires |rows| > 0 && SortedDesc(rows) && x.temp < rows[0].temp
    requires SortedDesc(rest)
    requires forall k :: 0 <= k < |rest| ==> rest[k] == x || rest[k] in rows[1..]
    requires multiset(rest) == multiset(rows[1..]) + multiset{x}
    ensures forall k :: 0 <= k < |rest| + 1 ==> ([rows[0]] + rest)[k] == x || ([rows[0]] + rest)[k] in rows
    ensures SortedDesc([rows[0]] + rest)
    ensures multiset([rows[0]] + rest) == multiset(rows) + multiset{x}
  {
    assert rows == [rows[0]] + rows[1..];
    forall k | 0 <= k < |rest|
      ensures rows[0].temp >= rest[k].temp
    {
      if rest[k] != x {
        var m :| 0 <= m < |rows[1..]| && rows[1..][m] == rest[k];
        assert rows[m + 1] == rest[k];
      }
    }
  }

  /** `sort_values(by="Temp", ascending=False)`: a permutation of the rows,
      warmest first. */
  function SortByTempDesc(rows: seq<Row>): (r: seq<Row>)
    ensures SortedDesc(r)
    ensures multiset(r) == multiset(rows)
  {
    if |rows| == 0 then []
    else
      assert rows == [rows[0]] + rows[1..];
      InsertDesc(rows[0], SortByTempDesc(rows[1..]))
  }

  function Reverse(rows: seq<Row>): (r: seq<Row>)
    ensures |r| == |rows|
    ensures forall i :: 0 <= i < |r| ==> r[i] == rows[|rows| - 1 - i]
  {
    if |rows| == 0 then [] else Reverse(rows[1..]) + [rows[0]]
  }

  /** Inserting a row colder than every other row puts it last. */
  lemma {:induction false} InsertColdest(x: Row, rows: seq<Row>)
    requires SortedDesc(rows)
    requires forall k :: 0 <= k < |rows| ==> x.temp < rows[k].temp
    ensures InsertDesc(x, rows) == rows + [x]
    decreases |rows|
  {
    if |rows| > 0 {
      InsertColdest(x, rows[1..]);
      assert [rows[0]] + (rows[1..] + [x]) == rows + [x];
    }
  }

  /** Sorting rows that are already in ascending temperature order reverses them. */
  lemma {:induction false} SortAscendingIsReverse(rows: seq<Row>)
    requires StrictlyAscending(rows)
    ensures SortByTempDesc(rows) == Reverse(rows)
    decreases |rows|
  {
    if |rows| > 0 {
      SortAscendingIsReverse(rows[1..]);
      InsertColdest(rows[0], Reverse(rows[1..]));
    }
  }

  lemma ReversedTableRow(data: seq<real>, rows: seq<Row>, low: int, high: int, i: int)
    requires |rows| == RowCount(low, high)
    requires forall k :: 0 <= k < |rows| ==> rows[k] == TableRow(data, low + k)
    requires 0 <= i < |rows|
    ensures Reverse(rows)[i] == TableRow(data, high - i)
  {
    ReverseOfRange(rows, t => TableRow(data, t), low, high, i);
  }

  /** Reversing rows indexed by the range `low..high` indexes them from `high` down. */
  lemma ReverseOfRange(rows: seq<Row>, f: int -> Row, low: int, high: int, i: int)
    requires |rows| == RowCount(low, high)
    requires forall k :: 0 <= k < |rows| ==> rows[k] == f(low + k)
    requires 0 <= i < |rows|
    ensures Reverse(rows)[i] == f(high - i)
  {
    var j := |rows| - 1 - i;
    assert low + j == high - i;
    assert Reverse(rows)[i] == rows[j];
  }

  /** Sorting the ascending table lists the temperatures from `high` down. */
  lemma SortedTableRows(data: seq<real>, rows: seq<Row>, low: int, high: int)
    requires |rows| == RowCount(low, high)
    requires forall k :: 0 <= k < |rows| ==> rows[k] == TableRow(data, low + k)
    ensures SortByTempDesc(rows) == Reverse(rows)
    ensures forall i :: 0 <= i < |rows| ==> SortByTempDesc(rows)[i] == TableRow(data, high - i)
  {
    assert StrictlyAscending(rows) by {
      assert forall k :: 0 <= k < |rows| ==> rows[k].temp == low + k;
    }
    SortAscendingIsReverse(rows);
    assert SortByTempDesc(rows) == Reverse(rows);
    forall i | 0 <= i < |rows|
      ensures Reverse(rows)[i] == TableRow(data, high - i)
    {
      ReversedTableRow(data, rows, low, high, i);
    }
  }

  /** `temp_table_display_output`: the table as shown, warmest first. */
  function DisplayTable(weather: Option<seq<real>>, low: int, high: int): (r: Option<seq<Row>>)
    ensures r.Some? <==> weather.Some?
    ensures r.Some? ==> |r.value| == RowCount(low, high)
    ensures r.Some? ==> forall i :: 0 <= i < |r.value| ==> r.value[i] == TableRow(weather.value, high - i)
    ensures r.Some? ==> SortedDesc(r.value)
    ensures r.Some? ==> multiset(r.value) == multiset(AscendingRows(weather, low, high).value)
    ensures r.Some? ==> r.value == Reverse(AscendingRows(weather, low, high).value)
  {
    match weather
    case None => None
    case Some(data) =>
      var rows := AscendingRows(weather, low, high).value;
      SortedTableRows(data, rows, low, high);
      Some(SortByTempDesc(rows))
  }

  /** A row of the frame as shown: without weather data the count and
      proportion cells are empty (`None`). */
  datatype ShownRow = ShownRow(temp: int, daysBelow: Option<nat>, proportion: Option<Ratio>)

  /** `temp_table_display_output` including the case without weather data:
      the temperature column is always there, and the two other columns are
      broadcast `None` when the series is missing. Sorting the ascending
      temperatures warmest first lists them from `high` down. */
  function ShownTable(weather: Option<seq<real>>, low: int, high: int): (r: seq<ShownRow>)
    ensures |r| == RowCount(low, high)
    ensures forall i :: 0 <= i < |r| ==> r[i].temp == high - i
    ensures forall i :: 0 <= i < |r| ==> (r[i].daysBelow.None? <==> weather.None?)
    ensures forall i :: 0 <= i < |r| ==> (r[i].proportion.None? <==> weather.None?)
    ensures weather.Some? ==> forall i :: 0 <= i < |r| ==>
              && r[i].daysBelow == Some(CountBelow(weather.value, (high - i) as real))
              && r[i].proportion == Some(Proportion(CountBelow(weather.value, (high - i) as real), |weather.value|))
  {
    match weather
    case None => seq(RowCount(low, high), i => ShownRow(high - i, None, None))
    case Some(data) =>
      var rows := DisplayTable(weather, low, high).value;
      FilledRows(data, rows, high);
      Filled(rows)
  }

  /** The computed rows with both cells present. */
  function Filled(rows: seq<Row>): (r: seq<ShownRow>)
    ensures |r| == |rows|
    ensures forall i :: 0 <= i < |rows| ==>
              r[i] == ShownRow(rows[i].temp, Some(rows[i].daysBelow), Some(rows[i].proportion))
  {
    seq(|rows|, i requires 0 <= i < |rows| => ShownRow(rows[i].temp, Some(rows[i].daysBelow), Some(rows[i].proportion)))
  }

  lemma FilledRows(data: seq<real>, rows: seq<Row>, high: int)
    requires forall i :: 0 <= i < |rows| ==> rows[i] == TableRow(data, high - i)
    ensures forall i :: 0 <= i < |rows| ==>
              && Filled(rows)[i].temp == high - i
              && Filled(rows)[i].daysBelow == Some(CountBelow(data, (high - i) as real))
              && Filled(rows)[i].proportion == Some(Proportion(CountBelow(data, (high - i) as real), |data|))
  {
  }

  /** Without weather data the table still lists the swept temperatures,
      warmest first, with empty cells. */
  lemma NoDataExample()
    ensures ShownTable(None, 0, 1) == [ShownRow(1, None, None), ShownRow(0, None, None)]
  {
    var r := ShownTable(None, 0, 1);
    assert r[0] == ShownRow(1, None, None);
    assert r[1] == ShownRow(0, None, None);
  }

  lemma {:induction false} ReverseReverse(rows: seq<Row>)
    ensures Reverse(Reverse(rows)) == rows
  {
    var twice := Reverse(Reverse(rows));
    assert |twice| == |rows|;
    forall i | 0 <= i < |rows|
      ensures twice[i] == rows[i]
    {
      assert twice[i] == Reverse(rows)[|rows| - 1 - i];
    }
  }

  /** Reading the displayed table bottom-up gives back the ascending table. */
  lemma DisplayRoundTrip(weather: Option<seq<real>>, low: int, high: int)
    requires weather.Some?
    ensures Reverse(DisplayTable(weather, low, high).value) == AscendingRows(weather, low, high).value
  {
    ReverseReverse(AscendingRows(weather, low, high).value);
  }

  /** The proportion column: the count over the number of days, in [0, 1]. */
  lemma ProportionInUnitInterval(days: nat, total: nat)
    requires 0 < total && days <= total
    ensures Proportion(days, total).Fraction?
    ensures Proportion(days, total).value * (total as real) == days as real
    ensures 0.0 <= Proportion(days, total).value <= 1.0
  {
    var n := total as real;
    var p := (days as real) / n;
    assert p * n == days as real;
    ScaleCancel(p, 1.0, n);
    ScaleCancel(0.0, p, n);
  }

  /** Dividing both sides of an inequality by a positive number. */
  lemma ScaleCancel(a: real, b: real, n: real)
    requires 0.0 < n && a * n <= b * n
    ensures a <= b
  {
    assert (b - a) * n >= 0.0;
  }

  /** Down the displayed table the counts never grow, and never exceed the
      number of days. */
  lemma DisplayTableDaysNonIncreasing(data: seq<real>, low: int, high: int)
    ensures var rows := DisplayTable(Some(data), low, high).value;
      && (forall i, j :: 0 <= i < j < |rows| ==> rows[i].daysBelow >= rows[j].daysBelow)
      && (forall i :: 0 <= i < |rows| ==> rows[i].daysBelow <= |data|)
  {
    var rows := DisplayTable(Some(data), low, high).value;
    forall i, j | 0 <= i < j < |rows|
      ensures rows[i].daysBelow >= rows[j].daysBelow
    {
      assert rows[i] == TableRow(data, high - i);
      assert rows[j] == TableRow(data, high - j);
      CountBelowMonotone(data, (high - j) as real, (high - i) as real);
    }
  }

  /** A row's proportion column agrees with its count: NaN when there are no
      days, otherwise the count over the number of days, inside [0, 1]. */
  predicate ProportionMatches(row: Row, total: nat)
  {
    && row.proportion == Proportion(row.daysBelow, total)
    && (row.proportion.NaN? <==> total == 0)
    && (row.proportion.Fraction? ==> 0.0 <= row.proportion.value <= 1.0)
  }

  lemma TableRowProportion(data: seq<real>, t: int)
    ensures ProportionMatches(TableRow(data, t), |data|)
  {
    if |data| > 0 {
      ProportionInUnitInterval(CountBelow(data, t as real), |data|);
    }
  }

  lemma RowsProportions(data: seq<real>, rows: seq<Row>, high: int)
    requires forall i :: 0 <= i < |rows| ==> rows[i] == TableRow(data, high - i)
    ensures forall i :: 0 <= i < |rows| ==> ProportionMatches(rows[i], |data|)
  {
    forall i | 0 <= i < |rows|
      ensures ProportionMatches(rows[i], |data|)
    {
      TableRowProportion(data, high - i);
    }
  }

  /** Every displayed proportion matches its row's count. */
  lemma DisplayTableProportions(data: seq<real>, low: int, high: int)
    ensures var rows := DisplayTable(Some(data), low, high).value;
      forall i :: 0 <= i < |rows| ==> ProportionMatches(rows[i], |data|)
  {
    RowsProportions(data, DisplayTable(Some(data), low, high).value, high);
  }

  /** A five-day series swept over [0, 1]: one day (-3) is below 0 and two
      days (-3 and 0) are below 1. */
  lemma FiveDayExample()
    ensures DisplayTable(Some([2.0, 5.0, -3.0, 10.0, 0.0]), 0, 1)
         == Some([Row(1, 2, Fraction(0.4)), Row(0, 1, Fraction(0.2))])
  {
    var data := [2.0, 5.0, -3.0, 10.0, 0.0];
    assert data[..2][..1] == data[..1];
    assert data[..3][..2] == data[..2];
    assert data[..4][..3] == data[..3];
    assert data[..4] == data[..|data| - 1];
    assert CountBelow(data[..1], 0.0) == 0;
    assert CountBelow(data[..2], 0.0) == 0;
    assert CountBelow(data[..3], 0.0) == 1;
    assert CountBelow(data[..4], 0.0) == 1;
    assert CountBelow(data, 0.0) == 1;
    assert CountBelow(data[..1], 1.0) == 0;
    assert CountBelow(data[..2], 1.0) == 0;
    assert CountBelow(data[..3], 1.0) == 1;
    assert CountBelow(data[..4], 1.0) == 1;
    assert CountBelow(data, 1.0) == 2;
    var shown := DisplayTable(Some(data), 0, 1).value;
    assert |shown| == 2;
    assert shown[0] == TableRow(data, 1) == Row(1, 2, Fraction(0.4));
    assert shown[1] == TableRow(data, 0) == Row(0, 1, Fraction(0.2));
    assert shown == [Row(1, 2, Fraction(0.4)), Row(0, 1, Fraction(0.2))];
  }
}
