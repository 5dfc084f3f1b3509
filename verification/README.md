# Heat pump dashboard: temperature analytics and city directory in Dafny

This project models the computational core of a small dashboard that shows
historical daily minimum temperatures for a US city, fetched from the
Open-Meteo archive, and of the one-off script that builds the dashboard's
city list.

Dashboard (`heatpump-dashboard/app.py`), as pure functions of their inputs:

- the **threshold table**: for every whole temperature `t` of the table
  slider's range `[low, high]`, the number of days strictly colder than `t`
  and that number over the number of days, shown warmest row first
  (`threshold_table.dfy`);
- the **two-colour split** of the scatter plot into days below the plot
  threshold and days at or above it (`partition.dfy`);
- the **weekly and monthly rolling means** (`window=7` and `window=30`,
  `min_periods=1`) (`rolling.dfy`);
- the **unit reset**: switching between Fahrenheit and Celsius resets both
  temperature sliders (`controls.dfy`);
- the **city lookup** behind the weather request and the coordinate readout
  (`city_lookup.dfy`).

City directory builder (`heatpump-dashboard/process-data.py`): the streaming
loop of `process_data` that labels each raw row `"<city>, <state_name>"`,
reads its population after removing commas, keeps rows of at least 10,000
people and writes each label once (`population.dfy`, `city_directory.dfy`).

The weather series is a `seq<real>`; the archive request is the parameter
`fetch` of `CityLookup.WeatherData`; files are sequences of records and lines.

The table code first keeps only the values below the upper bound `high`
(app.py line 329) and then counts, for each `t`, the kept values below `t`.
This could look like a fixed filter that distorts the counts. It is not: every
swept `t` is at most `high`, so the prefilter never changes a count, and the
model proves that (`ThresholdTable.PrefilterRedundant`). The table contracts
therefore speak of the plain count of days below `t` in the whole series.

For an empty series the code divides `0 / 0`. numpy yields NaN there rather
than an error. The model keeps that behaviour (`Ratio.NaN`) instead of
reporting "no data", and needs no precondition that the series is non-empty.

## Model

| member | source | states |
|---|---|---|
| `ThresholdTable.CountBelow` | heatpump-dashboard/app.py:332 | the number of days below a temperature never exceeds the number of days |
| `ThresholdTable.CountBelowIsNumberOfDays` | heatpump-dashboard/app.py:331-332 | the count equals the size of the set of days whose value is strictly below `t` |
| `ThresholdTable.CountBelowMonotone` | heatpump-dashboard/app.py:331-332 | a warmer threshold never counts fewer days |
| `ThresholdTable.BelowHigh` | heatpump-dashboard/app.py:329 | the prefilter keeps only values below the upper bound and never lengthens the series |
| `ThresholdTable.PrefilterRedundant` | heatpump-dashboard/app.py:329-332 | for every `t <= high`, counting in the prefiltered series gives the same number as counting in the whole series |
| `ThresholdTable.DaysBelowTemp` | heatpump-dashboard/app.py:322-334 | no counts without weather data; otherwise one count per swept temperature, and count `i` is the number of days in the whole series below `low + i` |
| `ThresholdTable.ProportionBelowTemp` | heatpump-dashboard/app.py:336-347 | no proportions without weather data; otherwise one per swept temperature, each the count over the number of days (NaN for an empty series) |
| `ThresholdTable.ProportionInUnitInterval` | heatpump-dashboard/app.py:344-345 | with at least one day, the proportion times the number of days is the count, and the proportion lies in [0, 1] |
| `ThresholdTable.TempTable` | heatpump-dashboard/app.py:317-320 | one entry per whole temperature from `low` to `high` inclusive, ascending; empty when `high < low` |
| `ThresholdTable.AscendingRows` | heatpump-dashboard/app.py:353-359 | with weather data, the unsorted frame has `high - low + 1` rows (none when `high < low`), and row `i` holds `low + i`, its count and its proportion; computed rows exist exactly when weather data exists |
| `ThresholdTable.SortByTempDesc` | heatpump-dashboard/app.py:362 | sorting yields a permutation of the rows ordered by temperature, warmest first |
| `ThresholdTable.SortAscendingIsReverse` | heatpump-dashboard/app.py:362 | sorting rows that ascend strictly by temperature reverses them |
| `ThresholdTable.DisplayTable` | heatpump-dashboard/app.py:349-365 | with weather data, the computed table has `high - low + 1` rows, row `i` is the row for `high - i`, it is sorted warmest first, and it is a permutation and the reversal of the unsorted frame; computed rows exist exactly when weather data exists |
| `ThresholdTable.ShownTable` | heatpump-dashboard/app.py:349-365 | the frame as shown always has one row per swept temperature, from `high` down; without weather data its count and proportion cells are empty, otherwise row `i` holds the number of days below `high - i` and that number over the number of days |
| `ThresholdTable.NoDataExample` | heatpump-dashboard/app.py:349-365 | without weather data the range [0, 1] is shown as the rows 1 and 0 with empty cells |
| `ThresholdTable.DisplayRoundTrip` | heatpump-dashboard/app.py:353-362 | read bottom-up, the shown table is the unsorted ascending frame again |
| `ThresholdTable.DisplayTableDaysNonIncreasing` | heatpump-dashboard/app.py:331-362 | down the shown table the counts never grow and never exceed the number of days |
| `ThresholdTable.DisplayTableProportions` | heatpump-dashboard/app.py:343-362 | every shown proportion is its row's count over the number of days, lies in [0, 1], and is NaN only for an empty series |
| `ThresholdTable.FiveDayExample` | heatpump-dashboard/app.py:329-362 | for the days 2, 5, -3, 10, 0 swept over [0, 1] the table is (1, 2, 0.4) then (0, 1, 0.2) |
| `Partition.KeepBelow` | heatpump-dashboard/app.py:223-225 | the grey points are exactly the points colder than the threshold |
| `Partition.KeepAtOrAbove` | heatpump-dashboard/app.py:226-228 | the black points are exactly the points at or above the threshold |
| `Partition.KeepBelowKeepsOrder` | heatpump-dashboard/app.py:223-225 | the grey points keep the day order of the series |
| `Partition.KeepAtOrAboveKeepsOrder` | heatpump-dashboard/app.py:226-228 | the black points keep the day order of the series |
| `Partition.PartitionIsPermutation` | heatpump-dashboard/app.py:223-228 | the grey and black points together are the whole series, each point once |
| `Partition.Split` | heatpump-dashboard/app.py:223-228 | day `i` is grey exactly when its value is below the threshold and black exactly when it is not; both halves keep day order, share no day, and their sizes add up to the series length |
| `Partition.BelowCountMatchesTable` | heatpump-dashboard/app.py:223-225 | the number of grey points equals the table's days-below count at the same temperature |
| `Rolling.RollingMeans` | heatpump-dashboard/app.py:265-275 | the reference definition: one mean per day, each over the window ending that day; while the window is not yet full, the mean of all days so far |
| `Rolling.RollingMean` | heatpump-dashboard/app.py:265-275 | the running-sum computation returns one value per day, value `i` the mean of days `max(0, i-W+1)` to `i`, and the mean of all days so far while `i < W` |
| `Rolling.RollingAverages` | heatpump-dashboard/app.py:264-275 | the weekly and monthly columns are the rolling means with windows 7 and 30, aligned day by day with the series |
| `Rolling.RollingMeanWithinWindow` | heatpump-dashboard/app.py:265-275 | every rolling mean lies between any lower and upper bound of the days in its window |
| `Rolling.WeeklyExample` | heatpump-dashboard/app.py:265-269 | for the days 1 to 8 the weekly means are 1, 1.5, 2, 2.5, 3, 3.5, 4, 5 |
| `Controls.InitialSliders` | heatpump-dashboard/app.py:59-82 | the sliders the page starts with have their values inside their bounds |
| `Controls.ResetForUnit` | heatpump-dashboard/app.py:145-150 | Fahrenheit resets to threshold (-15, 50, 5) and table (-25, 60, [0, 15]); Celsius to (-25, 10, -15) and (-30, 15, [-20, -10]); in both every default lies within its new bounds |
| `Controls.ResetAgreesWithInitialLayout` | heatpump-dashboard/app.py:59-82 | the Fahrenheit reset restores exactly the initial sliders, and the two units reset differently |
| `Controls.RangeRowCount` | heatpump-dashboard/app.py:74-82 | any range the table slider can hold gives `high - low + 1` rows, so the table never comes out empty |
| `Controls.ResetTableRows` | heatpump-dashboard/app.py:145-150 | after a reset the default table range gives 16 rows (Fahrenheit) or 11 rows (Celsius) |
| `CityLookup.Matches` | heatpump-dashboard/app.py:160-161 | the matching rows are exactly the directory rows with the selected label |
| `CityLookup.FirstMatch` | heatpump-dashboard/app.py:164-165 | the chosen index holds the label and no earlier row does; none exactly when no row holds it |
| `CityLookup.LookupAsWritten` | heatpump-dashboard/app.py:160-165 | the guard as written: it raises exactly when two or more rows have the selected label, and finds coordinates exactly when one row has it and neither of that row's coordinates is 0 |
| `CityLookup.Lookup` | heatpump-dashboard/app.py:157-165 | never raises; "not available" exactly when nothing is selected or no row has the label; otherwise the coordinates of the first row with the label |
| `CityLookup.WeatherData` | heatpump-dashboard/app.py:153-184 | no series when the city is not available; otherwise what the archive returns for the first matching row's coordinates |
| `CityLookup.DisplayLatLong` | heatpump-dashboard/app.py:369-383 | the readout shows the "not available" message exactly when the lookup finds nothing, else the found coordinates |
| `CityLookup.AsWrittenOnUniqueLabels` | heatpump-dashboard/app.py:160-165 | on a directory with unique labels the code as written never raises, reports "not available" whenever the intended lookup does, and agrees with it when neither coordinate is 0 |
| `CityLookup.ZeroLatitudeReportedMissing` | heatpump-dashboard/app.py:162-163 | a listed city at latitude 0.0 is found by the intended lookup but reported "not available" by the code as written |
| `CityLookup.DuplicateLabelRaises` | heatpump-dashboard/app.py:162 | with two rows under one label the code as written raises instead of taking the first row |
| `Population.StripCommas` | heatpump-dashboard/process-data.py:36 | the result has no comma, never grows, and keeps every other character of the input |
| `Population.StripCommasConcat` | heatpump-dashboard/process-data.py:36 | removing commas works piecewise over a concatenation |
| `Population.ParseInt` | heatpump-dashboard/process-data.py:36 | `int()` succeeds only on text that contains a digit, and yields a negative number only when the text has a minus sign |
| `Population.ParsePopulation` | heatpump-dashboard/process-data.py:36 | text without commas is read exactly as `Population.ParseInt` reads it, and a successful read needs a digit in the text |
| `Population.DecimalRoundTrip` | heatpump-dashboard/process-data.py:36 | `int()` reads a plain decimal numeral back as its number |
| `Population.ThousandsRoundTrip` | heatpump-dashboard/process-data.py:36 | a number written with comma-separated thousands is read back as that number |
| `Population.GroupedExample` | heatpump-dashboard/process-data.py:36 | "12,345" is read as 12345 |
| `Population.ThresholdExamples` | heatpump-dashboard/process-data.py:36-37 | "9,999" is read as 9999 and "10,000" as 10000 |
| `Population.ParseIntExamples` | heatpump-dashboard/process-data.py:36 | `int()` accepts "-7", "1_000" and "12" after a tab, and rejects "", "1__0" and "12" after the separator 0x1c, which `int()` does not trim |
| `CityDirectory.Label` | heatpump-dashboard/process-data.py:35 | the label is the city, then a comma and a space, then the state name |
| `CityDirectory.Selected` | heatpump-dashboard/process-data.py:37-41 | the reference selection of written rows: at most `n` entries, each the index of a row before `n` (`CityDirectory.SelectedMembers` pins which) |
| `CityDirectory.Candidates` | heatpump-dashboard/process-data.py:34-36 | each row's label is `<city>, <state_name>` and its population is the comma-stripped parse of its population text |
| `CityDirectory.FirstUnparsable` | heatpump-dashboard/process-data.py:36 | the reported row is the first whose population text `int()` rejects; none when every row parses |
| `CityDirectory.SelectedMembers` | heatpump-dashboard/process-data.py:37-41 | a row is written exactly when it qualifies and no earlier row with its label qualifies, and written rows keep input order |
| `CityDirectory.WriteDirectory` | heatpump-dashboard/process-data.py:32-41 | the loop with its set of written labels writes the header and then exactly the selected rows' lines, stopping at the first unparsable population |
| `CityDirectory.ProcessData` | heatpump-dashboard/process-data.py:24-41 | the file holds a header row with the fields `city_state`, `lat` and `lng`, followed by the lines of the selected rows; the lines written before an unparsable population stay in the file |
| `CityDirectory.FirstQualifyingByLabels` | heatpump-dashboard/process-data.py:37-41 | testing the label against the set of written labels is the same as asking whether the row is the first qualifying one for its label |
| `CityDirectory.DirectoryLinesFromSourceRows` | heatpump-dashboard/process-data.py:32-40 | after the header, every line is `<city>, <state_name>`, lat, lng of a source row whose population is at least 10,000 |
| `CityDirectory.WrittenRowsQualifyAndAreUnique` | heatpump-dashboard/process-data.py:37-41 | every written row qualifies and no label is written twice |
| `CityDirectory.WrittenIffSomeRowQualifies` | heatpump-dashboard/process-data.py:37-41 | the set of labels written equals the set of labels of qualifying rows: a label is written exactly when some row with that label qualifies |
| `CityDirectory.WrittenFromEarliestQualifying` | heatpump-dashboard/process-data.py:34-41 | each written row is the earliest qualifying row for its label, and written rows appear in input order |
| `CityDirectory.SmallRowDoesNotBlock` | heatpump-dashboard/process-data.py:37-41 | an earlier row under 10,000 does not stop a later qualifying row with the same label from being written |

## Left out

- The page layout, widgets and reactive wiring (app.py 30-137 and the decorators): framework glue. Each reactive calculation is a pure function of its inputs.
- The Open-Meteo request, its cache and retry policy (app.py 20-22, 166-184): network I/O. The returned series is the result of the `fetch` parameter.
- The plotting and the map (app.py 220-315, 385-404): rendering only. This includes which overlay lines are drawn for which checkbox selection (277-311). The map looks the city up exactly as the readout does.
- Reading and writing CSV files, and loading the directory with pandas (process-data.py 27-32, app.py 25): file I/O. Input rows and output lines are sequences. The conversion of the written lat/lng text to floats is not modelled.
- The commented-out earlier `process_data` (process-data.py 1-20): dead code.
- `get_rolling_avg` (app.py 186-204): no output uses it. Unlike the plot's rolling means it has no `min_periods`, so its first 6 (or 29) entries would be missing.
- The date index and the alignment of dates with values (app.py 195-197, 213-217): calendar arithmetic inside pandas.
- float32 storage and NaN readings in the fetched series: values are exact reals.
- The text formatting of the coordinates (app.py 381): cosmetic.
- Rolling.RollingMean: requires a window of at least 1, as pandas rejects `min_periods=1` with a smaller window; the code only uses 7 and 30.
- Population.ParseInt: accepts only ASCII digits, and trims only the space, tab, line feed, vertical tab, form feed and carriage return. Python's `int()` also accepts other Unicode digits and trims other Unicode spaces, such as U+00A0. It also has no length limit, whereas CPython 3.11 and later refuse decimal text of more than 4300 digits.
- CityLookup.LookupAsWritten: models numpy 1.x, where an empty array is falsy. Newer numpy raises for it.
- ThresholdTable.AscendingRows: returns no rows without weather data, where pandas builds the frame with empty count and proportion cells; that frame is `ThresholdTable.ShownTable`.
- ThresholdTable.DisplayTable: returns no rows without weather data, for the same reason; the frame shown in that case is `ThresholdTable.ShownTable`.
- ThresholdTable.SortByTempDesc: pandas' default sort is not stable; the model's order of rows with equal temperatures may differ. The table's temperatures are distinct, so the shown table is unaffected.
- Controls.ResetForUnit: takes the unit as a two-valued type. The radio buttons offer no other value, so the case where neither `if` fires does not arise.

## Findings

| source | as written | input that shows it | evidently intended | confidence | as-written member | corrected member |
|---|---|---|---|---|---|---|
| heatpump-dashboard/app.py:162 | `not lat or not lng` applies numpy truth-testing to the arrays of matching coordinates: for one match it tests the coordinate's value, for two or more it raises `ValueError`; lines 373 and 390 repeat the test | a directory row at latitude 0.0 (reported "not available"); two rows with the same label (raises) | "not available" only when no row matches, otherwise the first matching row's coordinates | high, not executed | `CityLookup.LookupAsWritten` | `CityLookup.Lookup` |

The directory builder writes each label once, so the raising case cannot
arise on the shipped directory (`CityLookup.AsWrittenOnUniqueLabels`). No US
city sits on latitude or longitude 0, so the first case cannot arise there either.
The rest of the model uses the intended lookup.
