/** The sidebar sliders and the reset the unit toggle triggers: switching
    between Fahrenheit and Celsius puts both temperature sliders back to
    unit-appropriate bounds and defaults. */
module Controls {

  import ThresholdTable

  datatype Unit = Fahrenheit | Celsius

  /** A single-value slider: bounds and current value. */
  datatype Slider = Slider(min: int, max: int, value: int)

  /** A two-handle range slider: bounds and the selected [low, high]. */
  datatype RangeSlider = RangeSlider(min: int, max: int, low: int, high: int)

  /** The plot-threshold slider and the table-range slider. */
  datatype Sliders = Sliders(threshold: Slider, table: RangeSlider)

  predicate SliderValid(s: Slider)
  {
    s.min <= s.value <= s.max
  }

  predicate RangeValid(s: RangeSlider)
  {
    s.min <= s.low <= s.high <= s.max
  }

  /** The sliders as the page first lays them out. */
  function InitialSliders(): (s: Sliders)
    ensures SliderValid(s.threshold) && RangeValid(s.table)
  {
    Sliders(Slider(-15, 50, 5), RangeSlider(-25, 60, 0, 15))
  }

  /** The effect run whenever the unit changes. */
  function ResetForUnit(u: Unit): (s: Sliders)
    ensures SliderValid(s.threshold) && RangeValid(s.table)
    ensures u == Fahrenheit ==> s.threshold == Slider(-15, 50, 5) && s.table == RangeSlider(-25, 60, 0, 15)
    ensures u == Celsius ==> s.threshold == Slider(-25, 10, -15) && s.table == RangeSlider(-30, 15, -20, -10)
  {
    match u
    case Fahrenheit => Sliders(Slider(-15, 50, 5), RangeSlider(-25, 60, 0, 15))
    case Celsius => Sliders(Slider(-25, 10, -15), RangeSlider(-30, 15, -20, -10))
  }

  /** Resetting to Fahrenheit restores exactly the sliders the page starts with,
      and the two units never share a reset. */
  lemma ResetAgreesWithInitialLayout()
    ensures ResetForUnit(Fahrenheit) == InitialSliders()
    ensures ResetForUnit(Fahrenheit) != ResetForUnit(Celsius)
  {
  }

  /** Any range the table slider can hold yields one row per whole degree
      from its low to its high handle, so never an empty table. */
  lemma RangeRowCount(s: RangeSlider)
    requires RangeValid(s)
    ensures ThresholdTable.RowCount(s.low, s.high) == s.high - s.low + 1 >= 1
  {
  }

  /** After a reset the default table range yields 16 rows for Fahrenheit
      (0 to 15) and 11 for Celsius (-20 to -10). */
  lemma ResetTableRows(u: Unit)
    ensures var t := ResetForUnit(u).table;
      ThresholdTable.RowCount(t.low, t.high) == (if u == Fahrenheit then 16 else 11)
  {
    RangeRowCount(ResetForUnit(u).table);
  }
}
