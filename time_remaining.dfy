/**
 * The "time remaining" wording: the time left until a date, counted in whole hours,
 * days, 30-day months or 360-day years rounded up, and written "in N units", with the
 * singular unit for a count of one and "tomorrow" for a day count of one.
 */
module TimeRemaining {
  import opened Strings

  datatype Unit = Hour | Day | Month | Year

  const HourMs: int := 1000 * 60 * 60
  const DayMs: int := 1000 * 60 * 60 * 24
  const MonthMs: int := 1000 * 60 * 60 * 24 * 30
  const YearMs: int := 1000 * 60 * 60 * 24 * 30 * 12

  /** The milliseconds one unit stands for. */
  function UnitMs(unit: Unit): (d: int)
    ensures d > 0 && d % HourMs == 0
  {
    match unit
    case Hour => HourMs
    case Day => DayMs
    case Month => MonthMs
    case Year => YearMs
  }

  /** `Math.ceil(msRemaining / unit)`: the fewest whole units covering the time left. */
  function Count(msRemaining: int, unit: Unit): (count: int)
    ensures (count - 1) * UnitMs(unit) < msRemaining <= count * UnitMs(unit)
  {
    var d := UnitMs(unit);
    var q := (-msRemaining) / d;
    assert -msRemaining == d * q + (-msRemaining) % d;
    assert (-q - 1) * d == -q * d - d;
    -q
  }

  /** The rounded-up count is the only whole number of units that bounds the time left that way. */
  lemma CountUnique(msRemaining: int, unit: Unit, c: int)
    requires (c - 1) * UnitMs(unit) < msRemaining <= c * UnitMs(unit)
    ensures c == Count(msRemaining, unit)
  {
    var n, d := Count(msRemaining, unit), UnitMs(unit);
    if c < n {
      assert c * d <= (n - 1) * d by { MulLe(c, n - 1, d); }
    } else if c > n {
      assert n * d <= (c - 1) * d by { MulLe(n, c - 1, d); }
    }
  }

  lemma MulLe(a: int, b: int, d: int)
    requires a <= b && d >= 0
    ensures a * d <= b * d
  {
    assert b * d - a * d == (b - a) * d;
  }

  /** More time left never gives a smaller count. */
  lemma CountMonotone(ms1: int, ms2: int, unit: Unit)
    requires ms1 <= ms2
    ensures Count(ms1, unit) <= Count(ms2, unit)
  {
    var n1, n2, d := Count(ms1, unit), Count(ms2, unit), UnitMs(unit);
    if n1 > n2 {
      MulLe(n2, n1 - 1, d);
    }
  }

  /** The four plural forms `pluralMapping` holds for a unit. */
  datatype Forms = Forms(zero: string, one: string, two: string, other: string)

  function PluralMapping(unit: Unit): Forms
  {
    match unit
    case Hour => Forms("hours", "hour", "hours", "hours")
    case Day => Forms("days", "day", "days", "days")
    case Month => Forms("months", "month", "months", "months")
    case Year => Forms("years", "year", "years", "years")
  }

  /** The unit's name in the singular. */
  function Singular(unit: Unit): string
  {
    match unit
    case Hour => "hour"
    case Day => "day"
    case Month => "month"
    case Year => "year"
  }

  /** `getUnit`: the form the mapping holds for 0, 1 and 2, and its `other` form for any other count. */
  function GetUnit(count: int, unit: Unit): (r: string)
  {
    var units := PluralMapping(unit);
    if count == 0 then units.zero
    else if count == 1 then units.one
    else if count == 2 then units.two
    else units.other
  }

  /** Only a count of one takes the singular; every other count adds an "s" to it. */
  lemma GetUnitPlural(count: int, unit: Unit)
    ensures count == 1 ==> GetUnit(count, unit) == Singular(unit)
    ensures count != 1 ==> GetUnit(count, unit) == Singular(unit) + "s"
    ensures GetUnit(count, unit) == Singular(unit) <==> count == 1
  {
  }

  /** The words for a count of units: "in N unit(s)". */
  function InCount(count: int, unit: Unit): (r: string)
    ensures |r| == 4 + |IntToString(count)| + |GetUnit(count, unit)|
    ensures r[..3] == "in " && r[|r| - |GetUnit(count, unit)|..] == GetUnit(count, unit)
  {
    "in " + IntToString(count) + " " + GetUnit(count, unit)
  }

  /**
   * `transform`: the time left is the date's time less the current time, both in
   * milliseconds since the epoch; a day count of one reads "tomorrow".
   */
  function Transform(valueMs: int, nowMs: int, unit: Unit): (r: string)
    ensures var count := Count(valueMs - nowMs, unit);
      r == if unit == Day && count == 1 then "tomorrow" else InCount(count, unit)
  {
    var msRemaining := valueMs - nowMs;
    match unit
    case Hour => InCount(Count(msRemaining, Hour), Hour)
    case Day =>
      var count := Count(msRemaining, Day);
      if count == 1 then "tomorrow" else InCount(count, Day)
    case Month => InCount(Count(msRemaining, Month), Month)
    case Year => InCount(Count(msRemaining, Year), Year)
  }

  /** "tomorrow" is written exactly when at most one day, and more than nothing, is left. */
  lemma TomorrowWithinADay(valueMs: int, nowMs: int)
    ensures Transform(valueMs, nowMs, Day) == "tomorrow" <==> 0 < valueMs - nowMs <= DayMs
  {
    var ms := valueMs - nowMs;
    var count := Count(ms, Day);
    if 0 < ms <= DayMs {
      CountUnique(ms, Day, 1);
    }
    if count != 1 {
      var r := InCount(count, Day);
      assert r[0] == 'i';
    }
  }

  /** Up to one hour left reads "in 1 hour"; a date already past by less than an hour, "in 0 hours". */
  lemma WithinTheHour(valueMs: int, nowMs: int)
    ensures 0 < valueMs - nowMs <= HourMs ==> Transform(valueMs, nowMs, Hour) == "in 1 hour"
    ensures -HourMs < valueMs - nowMs <= 0 ==> Transform(valueMs, nowMs, Hour) == "in 0 hours"
  {
    var ms := valueMs - nowMs;
    if 0 < ms <= HourMs {
      CountUnique(ms, Hour, 1);
    }
    if -HourMs < ms <= 0 {
      CountUnique(ms, Hour, 0);
    }
  }
}
