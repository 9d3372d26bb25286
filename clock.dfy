/** UTC instants as `DateTime` values: whole milliseconds since
    0001-01-01T00:00:00, the proleptic Gregorian calendar used to print them,
    and the format strings the services use. */
module Clock {
  import opened Decimal

  /** A `DateTime` in UTC, in milliseconds since `DateTime.MinValue`. */
  type Instant = nat

  const MsPerSecond: nat := 1000
  const MsPerMinute: nat := 60 * MsPerSecond
  const MsPerHour: nat := 60 * MsPerMinute
  const MsPerDay: nat := 24 * MsPerHour
  const SecondsPerDay: nat := 86400

  /** Days from 0001-01-01 to 10000-01-01. */
  const DaysTo10000: nat := 3652059
  /** `DateTime.MaxValue`, 9999-12-31T23:59:59.999. */
  const MaxInstant: Instant := DaysTo10000 * MsPerDay - 1
  /** The message of the `ArgumentOutOfRangeException` `DateTime.AddHours` throws
      past `DateTime.MaxValue`. */
  const UnrepresentableDateTime := "The added or subtracted value results in an un-representable DateTime."

  /** `t.Date`: midnight at the start of the day `t` falls in. */
  function Date(t: Instant): (d: Instant)
    ensures d % MsPerDay == 0
    ensures d <= t < d + MsPerDay
  {
    t - t % MsPerDay
  }

  /** Two instants have the same `Date` exactly when they fall on the same day. */
  lemma SameDate(t1: Instant, t2: Instant)
    ensures Date(t1) == Date(t2) <==> t1 / MsPerDay == t2 / MsPerDay
  {
    assert Date(t1) == (t1 / MsPerDay) * MsPerDay;
    assert Date(t2) == (t2 / MsPerDay) * MsPerDay;
    if t1 / MsPerDay != t2 / MsPerDay {
      if t1 / MsPerDay < t2 / MsPerDay {
        assert (t1 / MsPerDay) * MsPerDay < (t2 / MsPerDay) * MsPerDay;
      } else {
        assert (t2 / MsPerDay) * MsPerDay < (t1 / MsPerDay) * MsPerDay;
      }
    }
  }

  datatype CivilDate = CivilDate(year: nat, month: nat, day: nat)

  /** Cumulative day counts before each month. */
  function DaysToMonth(leap: bool): (table: seq<nat>)
    ensures |table| == 13 && table[0] == 0
    ensures forall m :: 1 <= m <= 12 ==> table[m - 1] < table[m] <= table[m - 1] + 31
    ensures table[12] == if leap then 366 else 365
  {
    if leap then [0, 31, 60, 91, 121, 152, 182, 213, 244, 274, 305, 335, 366]
    else [0, 31, 59, 90, 120, 151, 181, 212, 243, 273, 304, 334, 365]
  }

  /** The month (1..12) holding the 0-based day of the year `d`. */
  function MonthOf(d: nat, table: seq<nat>, m: nat): (r: nat)
    requires |table| == 13 && 1 <= m <= 12 && table[m - 1] <= d < table[12]
    requires forall k :: 1 <= k <= 12 ==> table[k - 1] < table[k]
    ensures m <= r <= 12 && table[r - 1] <= d < table[r]
    decreases 12 - m
  {
    if d < table[m] then m else MonthOf(d, table, m + 1)
  }

  /** A year (1-based), a 0-based day within it, and whether it is a leap year. */
  datatype YearDay = YearDay(year: int, dayOfYear: int, leap: bool)

  /** The year and day of the year of the day numbered `days` (0 is
      0001-01-01), by cycles of 400 years (146097 days), 100 years (36524
      days), 4 years (1461 days) and 1 year (365 days). The cycle lengths are
      written as literals so that the arithmetic stays linear for the solver. */
  function YearDayOf(days: nat): YearDay {
    var n400 := days / 146097;
    var d1 := days % 146097;
    var n100 := if d1 / 36524 == 4 then 3 else d1 / 36524;
    var d2 := d1 - n100 * 36524;
    var n4 := d2 / 1461;
    var d3 := d2 % 1461;
    var n1 := if d3 / 365 == 4 then 3 else d3 / 365;
    YearDay(400 * n400 + 100 * n100 + 4 * n4 + n1 + 1, d3 - n1 * 365, n1 == 3 && (n4 != 24 || n100 == 3))
  }

  /** Every representable day falls in years 1 to 9999, on a day its year has. */
  lemma YearDayBounds(days: nat)
    requires days < DaysTo10000
    ensures 1 <= YearDayOf(days).year <= 9999
    ensures 0 <= YearDayOf(days).dayOfYear < (if YearDayOf(days).leap then 366 else 365)
  {
  }

  /** Year, month and day of the day numbered `days` (0 is 0001-01-01). */
  function CivilFromDays(days: nat): (c: CivilDate)
    requires days < DaysTo10000
    ensures 1 <= c.year <= 9999 && 1 <= c.month <= 12 && 1 <= c.day <= 31
  {
    YearDayBounds(days);
    var yd := YearDayOf(days);
    var table := DaysToMonth(yd.leap);
    var month := MonthOf(yd.dayOfYear, table, 1);
    CivilDate(yd.year, month, yd.dayOfYear - table[month - 1] + 1)
  }

  /** `yyyyMMddHHmmss` of the second numbered `sec`. */
  function SecondStamp(sec: nat): (s: string)
    requires sec < DaysTo10000 * SecondsPerDay
    ensures |s| == 14 && AllDigits(s)
  {
    var c := CivilFromDays(sec / SecondsPerDay);
    var sod := sec % SecondsPerDay;
    Pad(c.year, 4) + Pad(c.month, 2) + Pad(c.day, 2) +
    Pad(sod / 3600, 2) + Pad(sod % 3600 / 60, 2) + Pad(sod % 60, 2)
  }

  /** `t.ToString("yyyyMMddHHmmss")`. */
  function Stamp(t: Instant): (s: string)
    requires t <= MaxInstant
    ensures |s| == 14 && AllDigits(s)
  {
    SecondStamp(t / MsPerSecond)
  }

  /** `t.ToString("yyyyMMddHHmmssfff")`. */
  function StampWithMillis(t: Instant): (s: string)
    requires t <= MaxInstant
    ensures |s| == 17 && AllDigits(s)
    ensures s[..14] == Stamp(t)
  {
    Stamp(t) + Pad(t % MsPerSecond, 3)
  }

  /** `t.ToString("yyyy-MM-dd")`. */
  function IsoDate(t: Instant): (s: string)
    requires t <= MaxInstant
    ensures |s| == 10 && s[4] == '-' && s[7] == '-'
  {
    var c := CivilFromDays(t / MsPerDay);
    Pad(c.year, 4) + "-" + Pad(c.month, 2) + "-" + Pad(c.day, 2)
  }
}
