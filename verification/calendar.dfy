/** The proleptic Gregorian calendar as day numbers (days since 1970-01-01,
    the epoch of `Date.UTC`), weekdays, and the "YYYY-MM-DD" date string
    that both the note keys and the saved birth date use. */
module Calendar {
  import opened Wrappers
  import opened Text

  predicate IsLeapYear(y: int) {
    y % 4 == 0 && (y % 100 != 0 || y % 400 == 0)
  }

  function YearDays(y: int): int {
    if IsLeapYear(y) then 366 else 365
  }

  function DaysInMonth(y: int, m: int): int
    requires 1 <= m <= 12
  {
    if m == 2 then (if IsLeapYear(y) then 29 else 28)
    else if m == 4 || m == 6 || m == 9 || m == 11 then 30
    else 31
  }

  /** A calendar date, as the local getters of a JavaScript `Date` report it
      (month 1-12). */
  predicate ValidDate(y: int, m: int, d: int) {
    1 <= m <= 12 && 1 <= d <= DaysInMonth(y, m)
  }

  /** Day number of January 1 of year `y`. */
  function DaysBeforeYear(y: int): int {
    var a := y - 1;
    365 * a + a / 4 - a / 100 + a / 400 - 719162
  }

  /** Days of year `y` before the first of month `m`. */
  function DaysBeforeMonth(y: int, m: int): int
    requires 1 <= m <= 12
  {
    var common :=
      if m == 1 then 0 else if m == 2 then 31 else if m == 3 then 59
      else if m == 4 then 90 else if m == 5 then 120 else if m == 6 then 151
      else if m == 7 then 181 else if m == 8 then 212 else if m == 9 then 243
      else if m == 10 then 273 else if m == 11 then 304 else 334;
    common + (if m > 2 && IsLeapYear(y) then 1 else 0)
  }

  /** `Date.UTC(y, m - 1, d) / 86400000`: a day past the end of the month
      carries into the next one, as `Date.UTC` does. */
  function DayNumber(y: int, m: int, d: int): int
    requires 1 <= m <= 12
  {
    DaysBeforeYear(y) + DaysBeforeMonth(y, m) + d - 1
  }

  /** Day `n` lies in year `y`. */
  predicate InYear(n: int, y: int) {
    DaysBeforeYear(y) <= n < DaysBeforeYear(y + 1)
  }

  /** `getUTCDay()`: 0 for Sunday through 6 for Saturday; 1970-01-01 was a
      Thursday. */
  function UtcDay(n: int): (w: int)
    ensures 0 <= w < 7
  {
    (n + 4) % 7
  }

  /** `getUTCDay() || 7`: 1 for Monday through 7 for Sunday. */
  function IsoWeekday(n: int): (w: int)
    ensures 1 <= w <= 7
    ensures w % 7 == UtcDay(n)
  {
    var u := UtcDay(n);
    if u == 0 then 7 else u
  }

  /** Going from year `y - 1` to `y` adds one multiple of `k` exactly when
      `k` divides `y`. */
  lemma DivStep4(y: int)
    ensures y / 4 - (y - 1) / 4 == if y % 4 == 0 then 1 else 0
  {
  }

  lemma DivStep100(y: int)
    ensures y / 100 - (y - 1) / 100 == if y % 100 == 0 then 1 else 0
  {
  }

  lemma DivStep400(y: int)
    ensures y / 400 - (y - 1) / 400 == if y % 400 == 0 then 1 else 0
  {
  }

  /** A multiple of 400 is a multiple of 100, and that of 4. */
  lemma DivisorChain(y: int)
    ensures y % 400 == 0 ==> y % 100 == 0
    ensures y % 100 == 0 ==> y % 4 == 0
  {
    if y % 400 == 0 {
      MultipleOf400(y, y / 400);
    }
    if y % 100 == 0 {
      MultipleOf100(y, y / 100);
    }
  }

  lemma MultipleOf400(y: int, k: int)
    requires y == 400 * k
    ensures y % 100 == 0
  {
    assert y == 100 * (4 * k);
  }

  lemma MultipleOf100(y: int, k: int)
    requires y == 100 * k
    ensures y % 4 == 0
  {
    assert y == 4 * (25 * k);
  }

  /** The day count of the year formula, with its quotients left abstract. */
  lemma YearLengthSum(a: int, y: int, a4: int, a100: int, a400: int, y4: int, y100: int, y400: int,
                      by4: bool, by100: bool, by400: bool)
    requires y == a + 1
    requires y4 - a4 == (if by4 then 1 else 0)
    requires y100 - a100 == (if by100 then 1 else 0)
    requires y400 - a400 == (if by400 then 1 else 0)
    requires by400 ==> by100
    requires by100 ==> by4
    ensures (365 * y + y4 - y100 + y400) - (365 * a + a4 - a100 + a400)
            == if by4 && (!by100 || by400) then 366 else 365
  {
  }

  /** A year has 365 days, 366 in a leap year. */
  lemma YearLength(y: int)
    ensures DaysBeforeYear(y + 1) - DaysBeforeYear(y) == YearDays(y)
  {
    var a := y - 1;
    DivStep4(y);
    DivStep100(y);
    DivStep400(y);
    DivisorChain(y);
    YearLengthSum(a, y, a / 4, a / 100, a / 400, y / 4, y / 100, y / 400, y % 4 == 0, y % 100 == 0, y % 400 == 0);
  }

  /** Year starts are strictly increasing. */
  lemma {:induction false} YearStartsIncrease(a: int, b: int)
    requires a < b
    ensures DaysBeforeYear(a + 1) <= DaysBeforeYear(b)
    decreases b - a
  {
    if a + 1 < b {
      YearStartsIncrease(a + 1, b);
      YearLength(a + 1);
    }
  }

  /** Every day number lies in at most one year. */
  lemma YearOfDayUnique(n: int, a: int, b: int)
    requires InYear(n, a) && InYear(n, b)
    ensures a == b
  {
    if a < b {
      YearStartsIncrease(a, b);
    } else if b < a {
      YearStartsIncrease(b, a);
    }
  }

  /** A valid date's day number lies in its own year. */
  lemma DayNumberInYear(y: int, m: int, d: int)
    requires ValidDate(y, m, d)
    ensures InYear(DayNumber(y, m, d), y)
  {
    YearLength(y);
  }

  lemma EpochIsDayZero()
    ensures DayNumber(1970, 1, 1) == 0
    ensures IsoWeekday(0) == 4
  {
  }

  // ---------------------------------------------------------------------
  // "YYYY-MM-DD"
  // ---------------------------------------------------------------------

  /** `${y}-${String(m).padStart(2, "0")}-${String(d).padStart(2, "0")}`:
      the year unpadded, month and day zero-padded to two digits. */
  function DateString(y: int, m: int, d: int): string {
    IntToString(y) + "-" + Pad2(m) + "-" + Pad2(d)
  }

  /** The three numbers of `s.split("-").map(Number)`, `NaN` as None. */
  datatype DateFields = DateFields(year: Option<int>, month: Option<int>, day: Option<int>)

  function ParseDateString(s: string): DateFields {
    var parts := Split(s, "-");
    DateFields(NumberAt(parts, 0), NumberAt(parts, 1), NumberAt(parts, 2))
  }

  /** Splitting a date string at '-' gives back its three fields. */
  lemma SplitDateString(y: nat, m: nat, d: nat)
    ensures Split(DateString(y, m, d), "-") == [NatToString(y), Pad2(m), Pad2(d)]
  {
    assert DateString(y, m, d) == NatToString(y) + "-" + Pad2(m) + "-" + Pad2(d);
    NumeralsExclude(y, '-');
    NumeralsExclude(m, '-');
    NumeralsExclude(d, '-');
    SplitThreeFields(NatToString(y), Pad2(m), Pad2(d));
  }

  /** Formatting a date and reading it back with split("-") and Number
      recovers the year, month and day, for any non-negative fields. */
  lemma DateStringRoundTrip(y: nat, m: nat, d: nat)
    ensures ParseDateString(DateString(y, m, d)) == DateFields(Some(y), Some(m), Some(d))
  {
    SplitDateString(y, m, d);
    NumberOfNatString(y);
    NumberOfPad2(m);
    NumberOfPad2(d);
  }

  /** A date of a year in 1000-9999 with a month and day below 100 is
      exactly ten characters long, with dashes at positions 4 and 7. */
  lemma DateStringShape(y: int, m: int, d: int)
    requires 1000 <= y <= 9999 && 0 <= m < 100 && 0 <= d < 100
    ensures |DateString(y, m, d)| == 10
    ensures DateString(y, m, d)[4] == '-' && DateString(y, m, d)[7] == '-'
  {
    var a, b, c := IntToString(y), Pad2(m), Pad2(d);
    FourDigitYear(y);
    Pad2Exact(m);
    Pad2Exact(d);
    assert DateString(y, m, d) == a + "-" + b + "-" + c;
    DashedShape(a, b, c);
  }

  lemma DashedShape(a: string, b: string, c: string)
    requires |a| == 4 && |b| == 2 && |c| == 2
    ensures var s := a + "-" + b + "-" + c;
            |s| == 10 && s[4] == '-' && s[7] == '-'
  {
  }

  /** A year in 1000-9999 is written with exactly four digits. */
  lemma FourDigitYear(y: int)
    requires 1000 <= y <= 9999
    ensures |IntToString(y)| == 4
  {
    assert IntToString(y) == NatToString(y);
    SmallPowers();
    NatToStringLength(y, 4);
    NatToStringLength(y, 3);
  }

  lemma SmallPowers()
    ensures Pow10(3) == 1000 && Pow10(4) == 10000
  {
    assert Pow10(1) == 10;
    assert Pow10(2) == 100;
  }
}
