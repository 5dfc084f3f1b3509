/** Looking a selected "city, state" label up in the city directory to get
    its coordinates, for the weather request and the coordinate readout. */
module CityLookup {

  import opened Options

  /** One row of the city directory as the dashboard loads it. */
  datatype City = City(cityState: string, lat: real, lng: real)

  /** What a lookup yields: coordinates, the "not available" outcome, or the
      exception numpy raises when asked for the truth value of an array with
      more than one element. */
  datatype Location = Found(lat: real, lng: real) | NotAvailable | AmbiguousTruthValue

  const NotAvailableMessage: string := "Latitude and Longitude not available for selected city."

  /** The rows labelled `wanted`, in directory order (the boolean
      mask `cities["city_state"] == wanted`). */
  function Matches(cities: seq<City>, wanted: string): (r: seq<City>)
    ensures |r| <= |cities|
    ensures forall c :: c in r <==> c in cities && c.cityState == wanted
  {
    if |cities| == 0 then []
    else if cities[0].cityState == wanted then [cities[0]] + Matches(cities[1..], wanted)
    else Matches(cities[1..], wanted)
  }

  /** `not arr` for a one-dimensional float array: true when empty, the
      negated truth of the element when there is exactly one, and an
      exception when there are more. */
  function NotArray(values: seq<real>): Option<bool>
  {
    if |values| == 0 then Some(true)
    else if |values| == 1 then Some(values[0] == 0.0)
    else None
  }

  /** The `lat` column of some rows (`.values`). */
  function Lats(m: seq<City>): (r: seq<real>)
    ensures |r| == |m| && forall i :: 0 <= i < |m| ==> r[i] == m[i].lat
  {
    seq(|m|, i requires 0 <= i < |m| => m[i].lat)
  }

  /** The `lng` column of some rows. */
  function Lngs(m: seq<City>): (r: seq<real>)
    ensures |r| == |m| && forall i :: 0 <= i < |m| ==> r[i] == m[i].lng
  {
    seq(|m|, i requires 0 <= i < |m| => m[i].lng)
  }

  /** The lookup as written: `if not lat or not lng` on the arrays of matching
      latitudes and longitudes, then the first element of each. */
  function LookupAsWritten(cities: seq<City>, selected: Option<string>): (r: Location)
    ensures r.AmbiguousTruthValue? <==> selected.Some? && |Matches(cities, selected.value)| >= 2
    ensures r.Found? <==> && selected.Some? && |Matches(cities, selected.value)| == 1
                          && Matches(cities, selected.value)[0].lat != 0.0
                          && Matches(cities, selected.value)[0].lng != 0.0
    ensures r.Found? ==> r == Found(Matches(cities, selected.value)[0].lat, Matches(cities, selected.value)[0].lng)
  {
    match selected
    case None => NotAvailable
    case Some(wanted) =>
      var m := Matches(cities, wanted);
      var lats := Lats(m);
      var lngs := Lngs(m);
      match NotArray(lats)
      case None => AmbiguousTruthValue
      case Some(true) => NotAvailable
      case Some(false) =>
        match NotArray(lngs)
        case None => AmbiguousTruthValue
        case Some(true) => NotAvailable
        case Some(false) => Found(lats[0], lngs[0])
  }

  /** First row labelled `wanted`, if any. */
  function FirstMatch(cities: seq<City>, wanted: string): (r: Option<nat>)
    ensures r.Some? ==> r.value < |cities| && cities[r.value].cityState == wanted
    ensures r.Some? ==> forall k :: 0 <= k < r.value ==> cities[k].cityState != wanted
    ensures r.None? ==> forall k :: 0 <= k < |cities| ==> cities[k].cityState != wanted
  {
    if |cities| == 0 then None
    else if cities[0].cityState == wanted then Some(0)
    else match FirstMatch(cities[1..], wanted)
      case None => None
      case Some(k) => Some(k + 1)
  }

  /** The intended lookup: the coordinates of the first row with the selected
      label, or "not available" when nothing is selected or nothing matches. */
  function Lookup(cities: seq<City>, selected: Option<string>): (r: Location)
    ensures r != AmbiguousTruthValue
    ensures r.NotAvailable? <==> selected.None? || forall k :: 0 <= k < |cities| ==> cities[k].cityState != selected.value
    ensures r.Found? ==> exists j :: && 0 <= j < |cities|
                                     && cities[j].cityState == selected.value
                                     && r == Found(cities[j].lat, cities[j].lng)
                                     && forall k :: 0 <= k < j ==> cities[k].cityState != selected.value
  {
    match selected
    case None => NotAvailable
    case Some(wanted) =>
      match FirstMatch(cities, wanted)
      case None => NotAvailable
      case Some(j) => Found(cities[j].lat, cities[j].lng)
  }

  /** `get_weather_data`: no series without a selected, known city; otherwise
      whatever the archive returns for the city's coordinates (`None` when it
      returns no response). */
  function WeatherData(cities: seq<City>, selected: Option<string>,
                       fetch: (real, real) -> Option<seq<real>>): (r: Option<seq<real>>)
    ensures Lookup(cities, selected).NotAvailable? ==> r.None?
    ensures Lookup(cities, selected).Found? ==> r == fetch(Lookup(cities, selected).lat, Lookup(cities, selected).lng)
  {
    match Lookup(cities, selected)
    case Found(lat, lng) => fetch(lat, lng)
    case _ => None
  }

  /** What the coordinate readout shows. */
  datatype Readout = Coordinates(lat: real, lng: real) | Message(text: string)

  /** `display_latlong`: the first matching row's coordinates, or the
      "not available" message; never an exception. */
  function DisplayLatLong(cities: seq<City>, selected: Option<string>): (r: Readout)
    ensures r.Message? <==> Lookup(cities, selected).NotAvailable?
    ensures r.Message? ==> r.text == NotAvailableMessage
    ensures r.Coordinates? ==> Found(r.lat, r.lng) == Lookup(cities, selected)
  {
    match Lookup(cities, selected)
    case Found(lat, lng) => Coordinates(lat, lng)
    case _ => Message(NotAvailableMessage)
  }

  ghost predicate UniqueLabels(cities: seq<City>)
  {
    forall i, j :: 0 <= i < j < |cities| ==> cities[i].cityState != cities[j].cityState
  }

  lemma {:induction false} MatchesOfUnique(cities: seq<City>, wanted: string)
    requires UniqueLabels(cities)
    ensures |Matches(cities, wanted)| <= 1
    ensures FirstMatch(cities, wanted).Some? ==> Matches(cities, wanted) == [cities[FirstMatch(cities, wanted).value]]
    ensures FirstMatch(cities, wanted).None? ==> Matches(cities, wanted) == []
    decreases |cities|
  {
    if |cities| > 0 {
      MatchesOfUnique(cities[1..], wanted);
    }
  }

  /** On a directory with unique labels (which the directory builder
      guarantees) the lookup as written never raises, and it agrees with the
      intended lookup unless the city sits on latitude 0 or longitude 0. */
  lemma AsWrittenOnUniqueLabels(cities: seq<City>, selected: Option<string>)
    requires UniqueLabels(cities)
    ensures LookupAsWritten(cities, selected) != AmbiguousTruthValue
    ensures (Lookup(cities, selected).Found? && Lookup(cities, selected).lat != 0.0 && Lookup(cities, selected).lng != 0.0)
              ==> LookupAsWritten(cities, selected) == Lookup(cities, selected)
    ensures Lookup(cities, selected).NotAvailable? ==> LookupAsWritten(cities, selected) == NotAvailable
  {
    if selected.Some? {
      MatchesOfUnique(cities, selected.value);
    }
  }

  /** The guard tests the coordinate's value, not whether a row matched: a
      listed city on the equator is reported as not available. */
  lemma ZeroLatitudeReportedMissing()
    ensures var cities := [City("Quito Line, Equator", 0.0, -78.5)];
      && Lookup(cities, Some("Quito Line, Equator")) == Found(0.0, -78.5)
      && LookupAsWritten(cities, Some("Quito Line, Equator")) == NotAvailable
  {
    var cities := [City("Quito Line, Equator", 0.0, -78.5)];
    assert Matches(cities, "Quito Line, Equator") == cities;
  }

  /** With two rows under one label the guard raises instead of taking the
      first row. */
  lemma DuplicateLabelRaises()
    ensures var cities := [City("Springfield, Ohio", 39.9, -83.8), City("Springfield, Ohio", 40.0, -83.0)];
      && Lookup(cities, Some("Springfield, Ohio")) == Found(39.9, -83.8)
      && LookupAsWritten(cities, Some("Springfield, Ohio")) == AmbiguousTruthValue
  {
    var cities := [City("Springfield, Ohio", 39.9, -83.8), City("Springfield, Ohio", 40.0, -83.0)];
    assert Matches(cities[1..], "Springfield, Ohio") == cities[1..];
    assert Matches(cities, "Springfield, Ohio") == cities;
  }
}
