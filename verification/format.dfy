/** The duration formatter: the per-unit rendering of the remaining time,
    the fixed-width "odometer" of years, average months, days, hours,
    minutes and seconds, the `h m s` rendering of the active time, and the
    rendering of an instant's calendar fields. */
module Format {
  import opened Text
  import opened Types
  import opened Calendar
  import opened Calc

  const MsPerWeek: int := 7 * MsPerDay

  // ---------------------------------------------------------------------
  // The odometer: YYYYMMDDHHMMSS
  // ---------------------------------------------------------------------

  /** The greedy fields of a duration, largest unit first. */
  datatype DigitFields = DigitFields(years: int, months: int, days: int, hours: int, mins: int, secs: int)

  /** The milliseconds the fields account for. */
  function FieldsMs(f: DigitFields): int {
    f.years * MsPerYear + f.months * MsPerMonthAvg + f.days * MsPerDay
    + f.hours * MsPerHour + f.mins * MsPerMin + f.secs * MsPerSec
  }

  /** The fields split `total` greedily, largest unit first: what is left
      after the larger units is at least the field's worth of its unit and
      less than one unit more. */
  predicate Greedy(total: int, f: DigitFields) {
    var r1 := total - f.years * MsPerYear;
    var r2 := r1 - f.months * MsPerMonthAvg;
    var r3 := r2 - f.days * MsPerDay;
    var r4 := r3 - f.hours * MsPerHour;
    var r5 := r4 - f.mins * MsPerMin;
    var r6 := r5 - f.secs * MsPerSec;
    && 0 <= r1 < MsPerYear && 0 <= r2 < MsPerMonthAvg && 0 <= r3 < MsPerDay
    && 0 <= r4 < MsPerHour && 0 <= r5 < MsPerMin && 0 <= r6 < MsPerSec
  }

  /** Decomposes `max(0, ms)` unit by unit, each remainder feeding the next.
      The split is the greedy one, so the fields account for the duration
      up to the dropped milliseconds and every field below the years stays
      below its unit's carry. */
  function Decompose(ms: int): (f: DigitFields)
    ensures Greedy(Max(0, ms), f)
    ensures f.years >= 0
    ensures 0 <= f.months <= 11 && 0 <= f.days <= 30 && 0 <= f.hours <= 23
    ensures 0 <= f.mins <= 59 && 0 <= f.secs <= 59
    ensures FieldsMs(f) <= Max(0, ms) < FieldsMs(f) + MsPerSec
  {
    var rest0 := Max(0, ms);
    var years := rest0 / MsPerYear;
    var rest1 := rest0 - years * MsPerYear;
    var months := rest1 / MsPerMonthAvg;
    var rest2 := rest1 - months * MsPerMonthAvg;
    var days := rest2 / MsPerDay;
    var rest3 := rest2 - days * MsPerDay;
    var hours := rest3 / MsPerHour;
    var rest4 := rest3 - hours * MsPerHour;
    var mins := rest4 / MsPerMin;
    var rest5 := rest4 - mins * MsPerMin;
    var secs := rest5 / MsPerSec;
    DigitFields(years, months, days, hours, mins, secs)
  }

  /** The greedy split is the only one: any fields that split `max(0, ms)`
      greedily are the ones the odometer shows. */
  lemma DecomposeUnique(ms: int, g: DigitFields)
    requires Greedy(Max(0, ms), g)
    ensures g == Decompose(ms)
  {
    var f := Decompose(ms);
    var r0 := Max(0, ms);
    QuotientUnique(r0, f.years, g.years, MsPerYear);
    var r1 := r0 - f.years * MsPerYear;
    QuotientUnique(r1, f.months, g.months, MsPerMonthAvg);
    var r2 := r1 - f.months * MsPerMonthAvg;
    QuotientUnique(r2, f.days, g.days, MsPerDay);
    var r3 := r2 - f.days * MsPerDay;
    QuotientUnique(r3, f.hours, g.hours, MsPerHour);
    var r4 := r3 - f.hours * MsPerHour;
    QuotientUnique(r4, f.mins, g.mins, MsPerMin);
    var r5 := r4 - f.mins * MsPerMin;
    QuotientUnique(r5, f.secs, g.secs, MsPerSec);
  }

  /** One average year shows as one year, not as 11 months, 30 days and
      the hours left over. */
  lemma DecomposeOneYear()
    ensures Decompose(MsPerYear) == DigitFields(1, 0, 0, 0, 0, 0)
  {
    DecomposeUnique(MsPerYear, DigitFields(1, 0, 0, 0, 0, 0));
  }

  /** At most one multiple of a positive unit leaves a remainder in
      [0, unit). */
  lemma QuotientUnique(r: int, a: int, b: int, unit: int)
    requires unit > 0
    requires 0 <= r - a * unit < unit && 0 <= r - b * unit < unit
    ensures a == b
  {
    assert (a - b) * unit == (r - b * unit) - (r - a * unit);
    SmallMultiple(a - b, unit);
  }

  /** The only multiple of a positive unit strictly between -unit and
      unit is zero. */
  lemma SmallMultiple(k: int, unit: int)
    requires unit > 0 && -unit < k * unit < unit
    ensures k == 0
  {
    if k != 0 {
      MulAtLeast(if k > 0 then k else -k, unit);
      assert false;
    }
  }

  lemma MulAtLeast(k: int, unit: int)
    requires k >= 1 && unit > 0
    ensures k * unit >= unit
  {
  }

  /** `${pad4(years)}${pad2(months)}...${pad2(secs)}`. */
  function FormatDigits(ms: int): string {
    var f := Decompose(ms);
    Pad4(f.years) + Pad2(f.months) + Pad2(f.days) + Pad2(f.hours) + Pad2(f.mins) + Pad2(f.secs)
  }

  /** Reads the six fields back out of a 14-digit odometer string. */
  function ReadDigits(s: string): DigitFields
    requires |s| == 14 && AllDigits(s)
  {
    DigitFields(DigitsValue(s[0..4]), DigitsValue(s[4..6]), DigitsValue(s[6..8]),
                DigitsValue(s[8..10]), DigitsValue(s[10..12]), DigitsValue(s[12..14]))
  }

  /** Below ten thousand years the odometer loses nothing of the
      decomposition: reading it back gives the same six fields. */
  lemma FormatDigitsRoundTrip(ms: int)
    requires Decompose(ms).years <= 9999
    ensures |FormatDigits(ms)| == 14 && AllDigits(FormatDigits(ms))
    ensures ReadDigits(FormatDigits(ms)) == Decompose(ms)
  {
    var f := Decompose(ms);
    Pad4Exact(f.years);
    Pad2Exact(f.months);
    Pad2Exact(f.days);
    Pad2Exact(f.hours);
    Pad2Exact(f.mins);
    Pad2Exact(f.secs);
    SixFields(Pad4(f.years), Pad2(f.months), Pad2(f.days), Pad2(f.hours), Pad2(f.mins), Pad2(f.secs));
  }

  lemma SixFields(a: string, b: string, c: string, d: string, e: string, f: string)
    requires |a| == 4 && |b| == 2 && |c| == 2 && |d| == 2 && |e| == 2 && |f| == 2
    requires AllDigits(a) && AllDigits(b) && AllDigits(c) && AllDigits(d) && AllDigits(e) && AllDigits(f)
    ensures var s := a + b + c + d + e + f;
            && |s| == 14 && AllDigits(s)
            && s[0..4] == a && s[4..6] == b && s[6..8] == c
            && s[8..10] == d && s[10..12] == e && s[12..14] == f
  {
    var s := a + b + c + d + e + f;
    assert forall i :: 0 <= i < 14 ==> IsDigit(s[i]) by {
      forall i | 0 <= i < 14
        ensures IsDigit(s[i])
      {
        if i < 4 { assert s[i] == a[i]; }
        else if i < 6 { assert s[i] == b[i - 4]; }
        else if i < 8 { assert s[i] == c[i - 6]; }
        else if i < 10 { assert s[i] == d[i - 8]; }
        else if i < 12 { assert s[i] == e[i - 10]; }
        else { assert s[i] == f[i - 12]; }
      }
    }
  }

  /** Every negative duration shows as all zeros. */
  lemma FormatDigitsNegative(ms: int)
    requires ms < 0
    ensures FormatDigits(ms) == "00000000000000"
  {
    assert Decompose(ms) == DigitFields(0, 0, 0, 0, 0, 0);
    OneDigitNumeral(0);
    assert Pad4(0) == "0000";
  }

  /** Past 9999 years the odometer is longer than 14 characters, so the
      14-character shape holds exactly up to 9999 years. */
  lemma FormatDigitsLong(ms: int)
    requires Decompose(ms).years > 9999
    ensures |FormatDigits(ms)| > 14
  {
    var y := Decompose(ms).years;
    NatToStringLength(y, 4);
    assert Pow10(4) == 10000;
    assert |Pad4(y)| >= 5;
  }

  // ---------------------------------------------------------------------
  // "{h}h {m}m {s}s"
  // ---------------------------------------------------------------------

  datatype Hms = Hms(h: int, m: int, s: int)

  /** Whole seconds `max(0, floor(ms / 1000))` split into hours (unbounded),
      minutes and seconds. Dafny's `/` on a positive divisor is floor
      division, as `Math.floor(ms / 1000)` is. */
  function SplitHms(ms: int): (t: Hms)
    ensures t.h >= 0 && 0 <= t.m <= 59 && 0 <= t.s <= 59
    ensures t.h * 3600 + t.m * 60 + t.s == Max(0, ms / 1000)
  {
    var totalSec := Max(0, ms / 1000);
    SplitSeconds(totalSec);
    Hms(totalSec / 3600, (totalSec % 3600) / 60, totalSec % 60)
  }

  /** Whole hours, the minutes left over, and the seconds past the minute
      add back up to the total. */
  lemma SplitSeconds(total: int)
    requires total >= 0
    ensures total / 3600 * 3600 + (total % 3600) / 60 * 60 + total % 60 == total
    ensures 0 <= (total % 3600) / 60 <= 59
  {
    var q, r := total / 3600, total % 3600;
    assert total == 3600 * q + r;
    var m, s := r / 60, r % 60;
    assert r == 60 * m + s;
    ModUnique60(total, 60 * q + m, s);
  }

  lemma ModUnique60(x: int, k: int, r: int)
    requires x == 60 * k + r && 0 <= r < 60
    ensures x % 60 == r
  {
  }

  function FormatDurationHMS(ms: int): string {
    var t := SplitHms(ms);
    IntToString(t.h) + "h " + IntToString(t.m) + "m " + IntToString(t.s) + "s"
  }

  /** A negative duration renders as zero. */
  lemma FormatDurationHMSNegative(ms: int)
    requires ms < 0
    ensures FormatDurationHMS(ms) == "0h 0m 0s"
  {
    assert SplitHms(ms) == Hms(0, 0, 0);
  }

  // ---------------------------------------------------------------------
  // The per-unit rendering
  // ---------------------------------------------------------------------

  /** What the remaining-time view shows: a whole count of a unit followed
      by the unit's word (the count's thousands grouping is the locale's),
      a fractional number of years (shown to two decimals), or the
      odometer. */
  datatype Rendered = Counted(count: int, suffix: string) | FractionalYears(years: real) | Odometer(text: string)

  /** The units shown as a whole count. */
  predicate IsCountedUnit(u: Unit) {
    u == Seconds || u == Days || u == Weeks || u == MonthsAvg
  }

  function UnitMs(u: Unit): (ms: int)
    requires IsCountedUnit(u)
    ensures ms > 0
  {
    match u
    case Seconds => MsPerSec
    case Days => MsPerDay
    case Weeks => MsPerWeek
    case MonthsAvg => MsPerMonthAvg
  }

  function UnitWord(u: Unit): string
    requires IsCountedUnit(u)
  {
    match u
    case Seconds => "秒"
    case Days => "日"
    case Weeks => "週"
    case MonthsAvg => "ヶ月"
  }

  /** Seconds, days, weeks and average months show how many whole units fit
      in the duration; years show the exact quotient; every other unit —
      minutes, hours and digits alike — falls through to the odometer. */
  function FormatRemaining(ms: int, u: Unit): (r: Rendered)
    ensures IsCountedUnit(u) ==>
              r.Counted? && r.suffix == UnitWord(u)
              && r.count * UnitMs(u) <= ms < (r.count + 1) * UnitMs(u)
    ensures u == Years ==> r.FractionalYears? && r.years * MsPerYear as real == ms as real
    ensures !IsCountedUnit(u) && u != Years ==> r == Odometer(FormatDigits(ms))
  {
    if IsCountedUnit(u) then Counted(ms / UnitMs(u), UnitWord(u))
    else if u == Years then FractionalYears(ms as real / MsPerYear as real)
    else Odometer(FormatDigits(ms))
  }

  /** `YYYY-MM-DD HH:MM:SS` from an instant's local fields (month 1-12); the
      year is not padded. */
  function FormatDateTime(y: int, mo: int, d: int, hh: int, mi: int, ss: int): string {
    DateString(y, mo, d) + " " + Pad2(hh) + ":" + Pad2(mi) + ":" + Pad2(ss)
  }

  /** For a four-digit year and two-digit fields the rendering is 19
      characters with its separators at fixed positions, and the time
      fields read back as numbers. */
  lemma FormatDateTimeShape(y: int, mo: int, d: int, hh: int, mi: int, ss: int)
    requires 1000 <= y <= 9999 && 0 <= mo < 100 && 0 <= d < 100
    requires 0 <= hh < 100 && 0 <= mi < 100 && 0 <= ss < 100
    ensures var r := FormatDateTime(y, mo, d, hh, mi, ss);
            && |r| == 19 && r[4] == '-' && r[7] == '-' && r[10] == ' ' && r[13] == ':' && r[16] == ':'
            && r[11..13] == Pad2(hh) && r[14..16] == Pad2(mi) && r[17..19] == Pad2(ss)
  {
    DateStringShape(y, mo, d);
    Pad2Exact(hh);
    Pad2Exact(mi);
    Pad2Exact(ss);
    DateTimeFields(DateString(y, mo, d), Pad2(hh), Pad2(mi), Pad2(ss));
  }

  lemma DateTimeFields(date: string, a: string, b: string, c: string)
    requires |date| == 10 && date[4] == '-' && date[7] == '-'
    requires |a| == 2 && |b| == 2 && |c| == 2
    ensures var r := date + " " + a + ":" + b + ":" + c;
            && |r| == 19 && r[4] == '-' && r[7] == '-' && r[10] == ' ' && r[13] == ':' && r[16] == ':'
            && r[11..13] == a && r[14..16] == b && r[17..19] == c
  {
  }
}
