/** The life and active-window calculator: the projected end of life from a
    birth instant and a life expectancy in average Gregorian years, the
    lived/remaining split of that span at a given instant, and what is left
    of today's active hours. Instants are integer milliseconds. */
module Calc {
  import opened Wrappers
  import opened Text
  import opened Types

  const MsPerSec: int := 1000
  const MsPerMin: int := 60 * MsPerSec
  const MsPerHour: int := 60 * MsPerMin
  const MsPerDay: int := 24 * MsPerHour

  /** The mean Gregorian year, in days. */
  const DaysPerYear: real := 365.2425

  /** 365.2425 days and a twelfth of that, in milliseconds; both are whole. */
  const MsPerYear: int := 31556952000
  const MsPerMonthAvg: int := 2629746000

  /** The integer constants are exactly the day-based averages. */
  lemma AverageLengths()
    ensures MsPerYear as real == DaysPerYear * MsPerDay as real
    ensures MsPerMonthAvg as real == DaysPerYear / 12.0 * MsPerDay as real
    ensures 12 * MsPerMonthAvg == MsPerYear
  {
  }

  function Max(a: int, b: int): int {
    if a >= b then a else b
  }

  function Min(a: int, b: int): int {
    if a <= b then a else b
  }

  /** The projected end instant: birth plus `years` mean Gregorian years. */
  function CalcEndDateMs(birthMs: int, years: int): (endMs: int)
    ensures endMs as real == birthMs as real + years as real * DaysPerYear * MsPerDay as real
  {
    birthMs + years * MsPerYear
  }

  /** `Math.min(hi, Math.max(lo, n))`. */
  function Clamp(n: int, lo: int, hi: int): (r: int)
    ensures lo <= hi ==> lo <= r <= hi
    ensures lo <= n <= hi ==> r == n
    ensures lo <= hi && n < lo ==> r == lo
    ensures n > hi || lo > hi ==> r == hi
  {
    Min(hi, Max(lo, n))
  }

  /** The derived life figures; `progress` is the lived fraction. */
  datatype Life = Life(endMs: int, totalMs: int, livedMs: int, remainingMs: int, progress: real)

  function CalcLife(nowMs: int, birthMs: int, years: int): (l: Life)
    ensures l.endMs == CalcEndDateMs(birthMs, years)
    ensures l.totalMs >= 0 && l.totalMs >= l.endMs - birthMs
    ensures birthMs <= l.endMs ==> l.totalMs == l.endMs - birthMs
    ensures l.endMs < birthMs ==> l.totalMs == 0
    ensures nowMs <= l.endMs ==> l.remainingMs == l.endMs - nowMs
    ensures l.endMs <= nowMs ==> l.remainingMs == 0
    ensures birthMs <= l.endMs <= nowMs ==> l.livedMs == l.totalMs
    ensures 0 <= l.livedMs <= l.totalMs
    ensures l.remainingMs >= 0 && l.remainingMs >= l.endMs - nowMs
    ensures 0.0 <= l.progress <= 1.0
    ensures l.totalMs == 0 ==> l.progress == 0.0
    ensures l.totalMs > 0 ==> l.progress * l.totalMs as real == l.livedMs as real
    ensures birthMs <= nowMs <= l.endMs ==>
              l.livedMs == nowMs - birthMs && l.livedMs + l.remainingMs == l.totalMs
    ensures birthMs < l.endMs <= nowMs ==> l.remainingMs == 0 && l.progress == 1.0
    ensures nowMs <= birthMs ==> l.livedMs == 0 && l.progress == 0.0
  {
    var endMs := CalcEndDateMs(birthMs, years);
    var totalMs := Max(0, endMs - birthMs);
    var livedMs := Clamp(nowMs - birthMs, 0, totalMs);
    var remainingMs := Max(0, endMs - nowMs);
    var progress := if totalMs == 0 then 0.0 else (Fraction(livedMs, totalMs); livedMs as real / totalMs as real);
    Life(endMs, totalMs, livedMs, remainingMs, progress)
  }

  /** A part of a positive whole, as a fraction of it. */
  lemma Fraction(part: int, whole: int)
    requires 0 <= part <= whole && whole > 0
    ensures 0.0 <= part as real / whole as real <= 1.0
    ensures (part as real / whole as real) * whole as real == part as real
    ensures part == whole ==> part as real / whole as real == 1.0
    ensures part == 0 ==> part as real / whole as real == 0.0
  {
  }

  // ---------------------------------------------------------------------
  // Today's active window
  // ---------------------------------------------------------------------

  /** `hhmm.split(":").map(Number)` destructured into `[h, m]`. */
  datatype Clock = Clock(h: Option<int>, m: Option<int>)

  function ParseHHMM(hhmm: string): Clock {
    var parts := Split(hhmm, ":");
    Clock(NumberAt(parts, 0), NumberAt(parts, 1))
  }

  /** The instant at `h:m` of the day that starts at `dayStartMs`; hours and
      minutes out of range carry over, as the `Date` constructor does. */
  function AtTimeOfDay(dayStartMs: int, h: int, m: int): int {
    dayStartMs + h * MsPerHour + m * MsPerMin
  }

  /** The remaining active time for a window from `startMs` to `endMs`, both
      on the same day: before the start the whole window, after the end 0,
      inside it the time up to the end. No day is added to an end that lies
      before the start. */
  function ActiveRemaining(nowMs: int, startMs: int, endMs: int): (r: int)
    ensures nowMs < startMs ==> r == endMs - startMs
    ensures startMs <= nowMs <= endMs ==> r == endMs - nowMs
    ensures startMs <= nowMs && endMs < nowMs ==> r == 0
    ensures startMs <= endMs ==> 0 <= r <= endMs - startMs
    ensures endMs < startMs ==> r <= 0
  {
    if nowMs < startMs then endMs - startMs
    else if nowMs > endMs then 0
    else endMs - nowMs
  }

  /** An instant whose time of day could not be parsed is `NaN`; every
      comparison with `NaN` is false and arithmetic on it is `NaN`. */
  function ActiveRemainingNum(nowMs: int, startMs: Option<int>, endMs: Option<int>): (r: Option<int>)
    ensures endMs.None? ==> r.None?
    ensures startMs.Some? && endMs.Some? ==> r == Some(ActiveRemaining(nowMs, startMs.value, endMs.value))
    ensures startMs.None? && endMs.Some? ==> r == Some(Max(0, endMs.value - nowMs))
  {
    match (startMs, endMs)
    case (Some(s), Some(e)) => Some(ActiveRemaining(nowMs, s, e))
    case (None, Some(e)) => if nowMs > e then Some(0) else Some(e - nowMs)
    case (_, None) => None
  }

  function InstantOf(dayStartMs: int, c: Clock): Option<int> {
    if c.h.Some? && c.m.Some? then Some(AtTimeOfDay(dayStartMs, c.h.value, c.m.value)) else None
  }

  /** Today's remaining active time for `profile` at `nowMs`, where today
      began at `dayStartMs`; None is `NaN`. */
  function CalcTodayActiveRemainingMs(nowMs: int, dayStartMs: int, profile: Profile): (r: Option<int>)
    ensures r.None? <==> InstantOf(dayStartMs, ParseHHMM(profile.activeEnd)).None?
  {
    var startMs := InstantOf(dayStartMs, ParseHHMM(profile.activeStart));
    var endMs := InstantOf(dayStartMs, ParseHHMM(profile.activeEnd));
    ActiveRemainingNum(nowMs, startMs, endMs)
  }

  /** A profile whose times parse as clocks gives the plain window rule on
      the instants of those clocks. */
  lemma ParsedWindow(nowMs: int, dayStartMs: int, profile: Profile, sh: int, sm: int, eh: int, em: int)
    requires ParseHHMM(profile.activeStart) == Clock(Some(sh), Some(sm))
    requires ParseHHMM(profile.activeEnd) == Clock(Some(eh), Some(em))
    ensures CalcTodayActiveRemainingMs(nowMs, dayStartMs, profile)
            == Some(ActiveRemaining(nowMs, AtTimeOfDay(dayStartMs, sh, sm), AtTimeOfDay(dayStartMs, eh, em)))
  {
  }

  /** A window whose end lies before its start (an overnight window such
      as 23:00-02:00) never reports positive remaining time: before the
      start the result is negative, from the start on it is 0. */
  lemma OvernightWindowNeverPositive(nowMs: int, dayStartMs: int, sh: int, sm: int, eh: int, em: int)
    requires AtTimeOfDay(dayStartMs, eh, em) < AtTimeOfDay(dayStartMs, sh, sm)
    ensures var startMs, endMs := AtTimeOfDay(dayStartMs, sh, sm), AtTimeOfDay(dayStartMs, eh, em);
            var r := ActiveRemaining(nowMs, startMs, endMs);
            (nowMs < startMs ==> r == endMs - startMs && r < 0) && (nowMs >= startMs ==> r == 0)
  {
  }

  /** 23:00-02:00 at 23:30 reports 0 although the window is open, and at
      01:00 reports minus 21 hours. */
  lemma OvernightWindowExample(dayStartMs: int)
    ensures ActiveRemaining(AtTimeOfDay(dayStartMs, 23, 30), AtTimeOfDay(dayStartMs, 23, 0), AtTimeOfDay(dayStartMs, 2, 0)) == 0
    ensures ActiveRemaining(AtTimeOfDay(dayStartMs, 1, 0), AtTimeOfDay(dayStartMs, 23, 0), AtTimeOfDay(dayStartMs, 2, 0)) == -21 * MsPerHour
  {
  }

  /** 07:00-23:00: the full 16 hours at 06:00, one hour at 22:00, 0 at 23:30. */
  lemma DaytimeWindowExample(dayStartMs: int)
    ensures ActiveRemaining(AtTimeOfDay(dayStartMs, 6, 0), AtTimeOfDay(dayStartMs, 7, 0), AtTimeOfDay(dayStartMs, 23, 0)) == 16 * MsPerHour
    ensures ActiveRemaining(AtTimeOfDay(dayStartMs, 22, 0), AtTimeOfDay(dayStartMs, 7, 0), AtTimeOfDay(dayStartMs, 23, 0)) == MsPerHour
    ensures ActiveRemaining(AtTimeOfDay(dayStartMs, 23, 30), AtTimeOfDay(dayStartMs, 7, 0), AtTimeOfDay(dayStartMs, 23, 0)) == 0
  {
  }
}
