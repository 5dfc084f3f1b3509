/** The one-off builder of the city directory: it streams the raw city table,
    labels each row "<city>, <state_name>", keeps rows with a population of at
    least 10,000, and writes each label once, from its first qualifying row. */
module CityDirectory {

  import opened Options
  import opened Population

  /** The columns of a raw row the builder reads, all as text. */
  datatype SourceRow = SourceRow(city: string, stateName: string, population: string, lat: string, lng: string)

  /** A row as the loop sees it after computing its label and population
      (`None` where `int()` raises). */
  datatype Candidate = Candidate(cityState: string, population: Option<int>, lat: string, lng: string)

  const MinPopulation: int := 10000

  /** The header line of the written table. */
  const Header: seq<string> := ["city_state", "lat", "lng"]

  /** The label `f"{city}, {state_name}"`. */
  function Label(r: SourceRow): (s: string)
    ensures |s| == |r.city| + 2 + |r.stateName|
    ensures s[..|r.city|] == r.city
    ensures s[|r.city|..|r.city| + 2] == ", "
    ensures s[|r.city| + 2..] == r.stateName
  {
    r.city + ", " + r.stateName
  }

  function Candidates(rows: seq<SourceRow>): (cs: seq<Candidate>)
    ensures |cs| == |rows|
    ensures forall i :: 0 <= i < |rows| ==>
              cs[i] == Candidate(Label(rows[i]), ParsePopulation(rows[i].population), rows[i].lat, rows[i].lng)
  {
    seq(|rows|, i requires 0 <= i < |rows| =>
      Candidate(Label(rows[i]), ParsePopulation(rows[i].population), rows[i].lat, rows[i].lng))
  }

  /** A row survives the population filter. */
  predicate Qualifies(c: Candidate)
  {
    c.population.Some? && c.population.value >= MinPopulation
  }

  /** The line written for a surviving row. */
  function Line(c: Candidate): seq<string>
  {
    [c.cityState, c.lat, c.lng]
  }

  /** Row `j` qualifies and no earlier row with its label does. */
  ghost predicate FirstQualifying(cs: seq<Candidate>, j: nat)
    requires j < |cs|
  {
    && Qualifies(cs[j])
    && forall k :: 0 <= k < j ==> !(Qualifies(cs[k]) && cs[k].cityState == cs[j].cityState)
  }

  ghost predicate StrictlyIncreasing(xs: seq<nat>)
  {
    forall i, j :: 0 <= i < j < |xs| ==> xs[i] < xs[j]
  }

  /** The indices, below `n`, of the rows that are written, in input order. */
  ghost function Selected(cs: seq<Candidate>, n: nat): (r: seq<nat>)
    requires n <= |cs|
    ensures |r| <= n
    ensures forall k :: 0 <= k < |r| ==> r[k] < n
  {
    if n == 0 then []
    else
      var prev := Selected(cs, n - 1);
      if FirstQualifying(cs, n - 1) then prev + [n - 1] else prev
  }

  /** The selection holds exactly the first qualifying rows, in input order. */
  lemma {:induction false} SelectedMembers(cs: seq<Candidate>, n: nat)
    requires n <= |cs|
    ensures forall j: nat :: j in Selected(cs, n) <==> (j < n && FirstQualifying(cs, j))
    ensures StrictlyIncreasing(Selected(cs, n))
    decreases n
  {
    if n > 0 {
      SelectedMembers(cs, n - 1);
    }
  }

  /** The labels of the qualifying rows before row `n`: the builder's set of
      labels already written. */
  ghost function QualifiedLabels(cs: seq<Candidate>, n: nat): set<string>
    requires n <= |cs|
  {
    set k | 0 <= k < n && Qualifies(cs[k]) :: cs[k].cityState
  }

  /** Index of the first row whose population `int()` rejects, if any. */
  function FirstUnparsable(cs: seq<Candidate>): (r: Option<nat>)
    ensures r.Some? ==> r.value < |cs| && cs[r.value].population.None?
    ensures r.Some? ==> forall k :: 0 <= k < r.value ==> cs[k].population.Some?
    ensures r.None? ==> forall k :: 0 <= k < |cs| ==> cs[k].population.Some?
  {
    if |cs| == 0 then None
    else if cs[0].population.None? then Some(0)
    else match FirstUnparsable(cs[1..])
      case None => None
      case Some(k) => Some(k + 1)
  }

  /** How many rows the builder gets through: all of them, or up to the row
      whose population raises. */
  function Reached(cs: seq<Candidate>): (n: nat)
    ensures n <= |cs|
  {
    match FirstUnparsable(cs)
    case None => |cs|
    case Some(i) => i
  }

  /** The lines written for the rows at `idx`, in that order. */
  function LinesOf(cs: seq<Candidate>, idx: seq<nat>): (lines: seq<seq<string>>)
    requires forall k :: 0 <= k < |idx| ==> idx[k] < |cs|
    ensures |lines| == |idx|
  {
    if |idx| == 0 then []
    else LinesOf(cs, idx[..|idx| - 1]) + [Line(cs[idx[|idx| - 1]])]
  }

  lemma {:induction false} LinesOfAt(cs: seq<Candidate>, idx: seq<nat>)
    requires forall k :: 0 <= k < |idx| ==> idx[k] < |cs|
    ensures forall k :: 0 <= k < |idx| ==> LinesOf(cs, idx)[k] == Line(cs[idx[k]])
    decreases |idx|
  {
    if |idx| > 0 {
      LinesOfAt(cs, idx[..|idx| - 1]);
    }
  }

  lemma LinesOfSnoc(cs: seq<Candidate>, idx: seq<nat>, i: nat)
    requires forall k :: 0 <= k < |idx| ==> idx[k] < |cs|
    requires i < |cs|
    ensures LinesOf(cs, idx + [i]) == LinesOf(cs, idx) + [Line(cs[i])]
  {
    assert (idx + [i])[..|idx|] == idx;
  }

  /** `process_data`: the lines of the output file, header first, and the row
      at which `int()` raised, if it did; the lines written before the
      exception stay in the file. */
  method ProcessData(rows: seq<SourceRow>) returns (lines: seq<seq<string>>, failedAt: Option<nat>)
    ensures failedAt == FirstUnparsable(Candidates(rows))
    ensures lines == [Header] + LinesOf(Candidates(rows), Selected(Candidates(rows), Reached(Candidates(rows))))
  {
    lines, failedAt := WriteDirectory(Candidates(rows));
  }

  /** The loop of `process_data` over the labelled, parsed rows, with the set
      of labels written so far. */
  method WriteDirectory(cs: seq<Candidate>) returns (lines: seq<seq<string>>, failedAt: Option<nat>)
    ensures failedAt == FirstUnparsable(cs)
    ensures lines == [Header] + LinesOf(cs, Selected(cs, Reached(cs)))
  {
    lines := [Header];
    var seen: set<string> := {};
    var i := 0;
    while i < |cs|
      invariant 0 <= i <= |cs|
      invariant forall k :: 0 <= k < i ==> cs[k].population.Some?
      invariant lines == [Header] + LinesOf(cs, Selected(cs, i))
      invariant seen == QualifiedLabels(cs, i)
    {
      var c := cs[i];
      if c.population.None? {
        FirstUnparsableAt(cs, i);
        failedAt := Some(i);
        return;
      }
      WriteStep(cs, i, lines, seen);
      var take := c.population.value >= MinPopulation && c.cityState !in seen;
      lines := if take then lines + [Line(c)] else lines;
      seen := if take then seen + {c.cityState} else seen;
      i := i + 1;
    }
    FirstUnparsableAt(cs, i);
    failedAt := None;
  }

  /** The scan for an unparsable population stops at the first one. */
  lemma {:induction false} FirstUnparsableAt(cs: seq<Candidate>, i: nat)
    requires i <= |cs|
    requires forall k :: 0 <= k < i ==> cs[k].population.Some?
    requires i < |cs| ==> cs[i].population.None?
    ensures FirstUnparsable(cs) == (if i < |cs| then Some(i) else None)
    ensures Reached(cs) == i
    decreases i
  {
    if i > 0 {
      FirstUnparsableAt(cs[1..], i - 1);
    }
  }

  /** One turn of the loop: writing the row exactly when it qualifies and its
      label is new extends the file to the next prefix's selection. */
  lemma WriteStep(cs: seq<Candidate>, i: nat, lines: seq<seq<string>>, seen: set<string>)
    requires i < |cs| && cs[i].population.Some?
    requires forall k :: 0 <= k < i ==> cs[k].population.Some?
    requires lines == [Header] + LinesOf(cs, Selected(cs, i))
    requires seen == QualifiedLabels(cs, i)
    ensures var take := cs[i].population.value >= MinPopulation && cs[i].cityState !in seen;
      && (if take then lines + [Line(cs[i])] else lines) == [Header] + LinesOf(cs, Selected(cs, i + 1))
      && (if take then seen + {cs[i].cityState} else seen) == QualifiedLabels(cs, i + 1)
    ensures forall k :: 0 <= k < i + 1 ==> cs[k].population.Some?
  {
    FirstQualifyingByLabels(cs, i);
    SelectedStep(cs, i);
    QualifiedLabelsStep(cs, i);
    if FirstQualifying(cs, i) {
      LinesOfSnoc(cs, Selected(cs, i), i);
    }
  }

  /** The contents of the output file: the header and the lines written for
      the rows the builder reached, which is all rows when every population
      parses and the rows before the first unparsable one otherwise. */
  ghost function Directory(rows: seq<SourceRow>): seq<seq<string>>
  {
    var cs := Candidates(rows);
    [Header] + LinesOf(cs, Selected(cs, Reached(cs)))
  }

  /** Each line after the header is `<city>, <state_name>`, lat, lng of one
      source row whose comma-stripped population is at least 10,000. */
  lemma DirectoryLinesFromSourceRows(rows: seq<SourceRow>)
    ensures var s := Selected(Candidates(rows), Reached(Candidates(rows)));
      && |Directory(rows)| == 1 + |s|
      && Directory(rows)[0] == Header
      && forall k :: 0 <= k < |s| ==>
           && s[k] < |rows|
           && Directory(rows)[k + 1] == [rows[s[k]].city + ", " + rows[s[k]].stateName, rows[s[k]].lat, rows[s[k]].lng]
           && ParsePopulation(rows[s[k]].population).Some?
           && ParsePopulation(rows[s[k]].population).value >= MinPopulation
  {
    var cs := Candidates(rows);
    var s := Selected(cs, Reached(cs));
    LinesOfAt(cs, s);
    WrittenRowsQualifyAndAreUnique(cs, Reached(cs));
    forall k | 0 <= k < |s|
      ensures && s[k] < |rows|
              && Directory(rows)[k + 1] == [rows[s[k]].city + ", " + rows[s[k]].stateName, rows[s[k]].lat, rows[s[k]].lng]
              && ParsePopulation(rows[s[k]].population).Some?
              && ParsePopulation(rows[s[k]].population).value >= MinPopulation
    {
      var c := cs[s[k]];
      assert Directory(rows)[k + 1] == Line(c);
      QualifyingRowLine(rows[s[k]], c);
    }
  }

  /** The line of a qualifying candidate built from a source row. */
  lemma QualifyingRowLine(row: SourceRow, c: Candidate)
    requires c == Candidate(Label(row), ParsePopulation(row.population), row.lat, row.lng)
    requires Qualifies(c)
    ensures Line(c) == [row.city + ", " + row.stateName, row.lat, row.lng]
    ensures ParsePopulation(row.population).Some? && ParsePopulation(row.population).value >= MinPopulation
  {
  }

  /** A row is the first qualifying one for its label exactly when it
      qualifies and its label is not among those already written. */
  lemma FirstQualifyingByLabels(cs: seq<Candidate>, i: nat)
    requires i < |cs|
    ensures FirstQualifying(cs, i) <==> Qualifies(cs[i]) && cs[i].cityState !in QualifiedLabels(cs, i)
  {
    if cs[i].cityState in QualifiedLabels(cs, i) {
      var k :| 0 <= k < i && Qualifies(cs[k]) && cs[k].cityState == cs[i].cityState;
    }
  }

  lemma SelectedStep(cs: seq<Candidate>, i: nat)
    requires i < |cs|
    ensures Selected(cs, i + 1) == Selected(cs, i) + (if FirstQualifying(cs, i) then [i] else [])
  {
  }

  lemma QualifiedLabelsStep(cs: seq<Candidate>, i: nat)
    requires i < |cs|
    ensures QualifiedLabels(cs, i + 1)
         == QualifiedLabels(cs, i) + (if Qualifies(cs[i]) then {cs[i].cityState} else {})
  {
  }

  /** Every written row passed the population filter, and no label is written
      twice. */
  lemma WrittenRowsQualifyAndAreUnique(cs: seq<Candidate>, n: nat)
    requires n <= |cs|
    ensures forall k :: 0 <= k < |Selected(cs, n)| ==> Qualifies(cs[Selected(cs, n)[k]])
    ensures forall k1, k2 :: 0 <= k1 < k2 < |Selected(cs, n)| ==>
              cs[Selected(cs, n)[k1]].cityState != cs[Selected(cs, n)[k2]].cityState
  {
    var s := Selected(cs, n);
    SelectedMembers(cs, n);
    forall k | 0 <= k < |s|
      ensures Qualifies(cs[s[k]])
    {
      assert s[k] in s;
    }
    forall k1, k2 | 0 <= k1 < k2 < |s|
      ensures cs[s[k1]].cityState != cs[s[k2]].cityState
    {
      assert s[k1] in s && s[k2] in s;
      assert s[k1] < s[k2];
    }
  }

  /** The labels of the rows written before row `n`. */
  ghost function WrittenLabels(cs: seq<Candidate>, n: nat): set<string>
    requires n <= |cs|
  {
    var s := Selected(cs, n);
    set k | 0 <= k < |s| :: cs[s[k]].cityState
  }

  /** A label is written exactly when some row with that label qualifies. */
  lemma WrittenIffSomeRowQualifies(cs: seq<Candidate>, n: nat)
    requires n <= |cs|
    ensures WrittenLabels(cs, n) == QualifiedLabels(cs, n)
  {
    var s := Selected(cs, n);
    SelectedMembers(cs, n);
    forall l | l in QualifiedLabels(cs, n)
      ensures l in WrittenLabels(cs, n)
    {
      var j :| 0 <= j < n && Qualifies(cs[j]) && cs[j].cityState == l;
      var e := EarliestWithLabel(cs, j);
      assert e in s;
      var k :| 0 <= k < |s| && s[k] == e;
      assert cs[s[k]].cityState == l;
    }
    forall l | l in WrittenLabels(cs, n)
      ensures l in QualifiedLabels(cs, n)
    {
      var k :| 0 <= k < |s| && cs[s[k]].cityState == l;
      assert s[k] in s;
    }
  }

  /** Every qualifying row has a first qualifying row with its label at or
      before it. */
  lemma {:induction false} EarliestWithLabel(cs: seq<Candidate>, j: nat) returns (e: nat)
    requires j < |cs| && Qualifies(cs[j])
    ensures e <= j && FirstQualifying(cs, e) && cs[e].cityState == cs[j].cityState
    decreases j
  {
    if FirstQualifying(cs, j) {
      e := j;
    } else {
      var k :| 0 <= k < j && Qualifies(cs[k]) && cs[k].cityState == cs[j].cityState;
      e := EarliestWithLabel(cs, k);
    }
  }


  /** The row written for a label comes from the earliest qualifying row with
      that label, and the written rows keep their input order. */
  lemma WrittenFromEarliestQualifying(cs: seq<Candidate>, n: nat)
    requires n <= |cs|
    ensures StrictlyIncreasing(Selected(cs, n))
    ensures forall k, j :: 0 <= k < |Selected(cs, n)| && 0 <= j < Selected(cs, n)[k] ==>
              !(Qualifies(cs[j]) && cs[j].cityState == cs[Selected(cs, n)[k]].cityState)
  {
    var s := Selected(cs, n);
    SelectedMembers(cs, n);
    forall k, j | 0 <= k < |s| && 0 <= j < s[k]
      ensures !(Qualifies(cs[j]) && cs[j].cityState == cs[s[k]].cityState)
    {
      assert s[k] in s;
    }
  }

  /** An under-sized row does not block a later qualifying row with the same
      label. */
  lemma SmallRowDoesNotBlock()
    ensures var rows := [SourceRow("Springfield", "Ohio", "9,999", "39.9", "-83.8"),
                         SourceRow("Springfield", "Ohio", "10,000", "40.0", "-83.0")];
      Selected(Candidates(rows), 2) == [1]
  {
    var rows := [SourceRow("Springfield", "Ohio", "9,999", "39.9", "-83.8"),
                 SourceRow("Springfield", "Ohio", "10,000", "40.0", "-83.0")];
    var cs := Candidates(rows);
    ThresholdExamples();
    assert !Qualifies(cs[0]);
    assert Qualifies(cs[1]);
    assert FirstQualifying(cs, 1);
    assert !FirstQualifying(cs, 0);
    SelectedStep(cs, 0);
    SelectedStep(cs, 1);
  }
}
