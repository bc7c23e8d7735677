/** The settings screen's save and load logic: the strings a saved profile
    carries, the active-window length check that decides whether it is
    saved at all, and reading the saved strings back into the pickers. */
module Settings {
  import opened Wrappers
  import opened Text
  import opened Types
  import opened Calendar
  import opened Calc

  const MinutesPerDay: int := 24 * 60

  const WindowError: string := "活動時間は1分以上23時間59分までに設定してください"

  /** The picker selections at the moment of saving. */
  datatype Form = Form(
    birthYear: int, birthMonth: int, birthDay: int,
    lifeExpectancy: int,
    startHour: int, startMinute: int,
    endHour: int, endMinute: int,
    focusMode: FocusMode)

  /** The screen's selections before anything is loaded. */
  const InitialForm: Form := Form(2000, 1, 1, 80, 7, 0, 23, 0, Today)

  /** Hours and minutes are what a clock shows. */
  predicate ClockFields(f: Form) {
    0 <= f.startHour <= 23 && 0 <= f.startMinute <= 59
    && 0 <= f.endHour <= 23 && 0 <= f.endMinute <= 59
  }

  /** What the pickers offer: years 1900-2020, months 1-12, days 1-31, life
      expectancies 1-150, hours 0-23 and minutes in steps of five. */
  predicate PickerRanges(f: Form) {
    && 1900 <= f.birthYear <= 2020 && 1 <= f.birthMonth <= 12 && 1 <= f.birthDay <= 31
    && 1 <= f.lifeExpectancy <= 150
    && ClockFields(f) && f.startMinute % 5 == 0 && f.endMinute % 5 == 0
  }

  /** No field is negative. */
  predicate NonNegative(f: Form) {
    f.birthYear >= 0 && f.birthMonth >= 0 && f.birthDay >= 0
    && f.startHour >= 0 && f.startMinute >= 0 && f.endHour >= 0 && f.endMinute >= 0
  }

  /** `HH:MM`, both fields zero-padded to two digits. */
  function HHMM(h: int, m: int): string {
    Pad2(h) + ":" + Pad2(m)
  }

  function StartMinutes(f: Form): int {
    f.startHour * 60 + f.startMinute
  }

  function RawEndMinutes(f: Form): int {
    f.endHour * 60 + f.endMinute
  }

  /** The end in minutes after the start's midnight: an end at or before the
      start is read as the next day's. */
  function EndMinutes(f: Form): (e: int)
    ensures e == RawEndMinutes(f) || e == RawEndMinutes(f) + MinutesPerDay
    ensures e == RawEndMinutes(f) <==> RawEndMinutes(f) > StartMinutes(f)
    ensures e > StartMinutes(f) || RawEndMinutes(f) + MinutesPerDay <= StartMinutes(f)
  {
    var e := RawEndMinutes(f);
    if e <= StartMinutes(f) then e + MinutesPerDay else e
  }

  /** The length of the active window in minutes. On a clock it is never
      empty and at most a whole day, and it is a whole day exactly when the
      start and end times coincide. */
  function ActivityMinutes(f: Form): (a: int)
    ensures ClockFields(f) ==> 1 <= a <= MinutesPerDay
    ensures ClockFields(f) ==>
              (a == MinutesPerDay <==> f.startHour == f.endHour && f.startMinute == f.endMinute)
  {
    EndMinutes(f) - StartMinutes(f)
  }

  /** The outcome of pressing save: the error shown, or the profile that is
      written to storage and put into the store. */
  datatype SaveOutcome = Rejected(message: string) | Saved(profile: Profile)

  function OnSave(f: Form): (o: SaveOutcome)
    ensures o.Rejected? <==> ActivityMinutes(f) <= 0 || ActivityMinutes(f) >= MinutesPerDay
    ensures o.Rejected? ==> o.message == WindowError
    ensures o.Saved? ==>
              && o.profile.birthISO == DateString(f.birthYear, f.birthMonth, f.birthDay)
              && o.profile.lifeExpectancyYears == f.lifeExpectancy
              && o.profile.activeStart == HHMM(f.startHour, f.startMinute)
              && o.profile.activeEnd == HHMM(f.endHour, f.endMinute)
              && o.profile.defaultFocusMode == f.focusMode
  {
    var birthISO := DateString(f.birthYear, f.birthMonth, f.birthDay);
    var activeStart := HHMM(f.startHour, f.startMinute);
    var activeEnd := HHMM(f.endHour, f.endMinute);
    var activityMinutes := ActivityMinutes(f);
    if activityMinutes <= 0 || activityMinutes >= MinutesPerDay then Rejected(WindowError)
    else Saved(Profile(birthISO, f.lifeExpectancy, activeStart, activeEnd, f.focusMode))
  }

  /** On a clock, saving fails exactly when the start and end times are the
      same; every other window, overnight ones included, is saved. */
  lemma RejectedIffSameTime(f: Form)
    requires ClockFields(f)
    ensures OnSave(f).Rejected? <==> f.startHour == f.endHour && f.startMinute == f.endMinute
  {
  }

  /** An end before the start is saved as an overnight window whose length
      runs through midnight. */
  lemma OvernightWindowAccepted(f: Form)
    requires ClockFields(f) && RawEndMinutes(f) < StartMinutes(f)
    ensures OnSave(f).Saved?
    ensures ActivityMinutes(f) == RawEndMinutes(f) + MinutesPerDay - StartMinutes(f)
  {
  }

  /** The screen's initial selections are saved as they are. */
  lemma InitialFormSaves()
    ensures PickerRanges(InitialForm)
    ensures OnSave(InitialForm).Saved?
    ensures OnSave(InitialForm).profile.activeStart == "07:00"
    ensures OnSave(InitialForm).profile.birthISO == "2000-01-01"
  {
    var f := InitialForm;
    assert ActivityMinutes(f) == 16 * 60;
    InitialNumerals(f);
    var p := OnSave(f).profile;
    assert p.activeStart == Pad2(f.startHour) + ":" + Pad2(f.startMinute);
    assert p.birthISO == IntToString(f.birthYear) + "-" + Pad2(f.birthMonth) + "-" + Pad2(f.birthDay);
    InitialStrings(Pad2(f.startHour), Pad2(f.startMinute), IntToString(f.birthYear), Pad2(f.birthMonth));
  }

  /** The initial form's numerals. Like the helpers below it, it keeps
      literal facts apart, because stated together with the form they
      exceed the solver's resource budget. */
  lemma InitialNumerals(f: Form)
    requires f == InitialForm
    ensures Pad2(f.startHour) == "07" && Pad2(f.startMinute) == "00"
    ensures IntToString(f.birthYear) == "2000" && Pad2(f.birthMonth) == "01" && Pad2(f.birthDay) == "01"
  {
    InitialLiterals();
  }

  /** The numerals of the initial form, built digit by digit. */
  lemma InitialLiterals()
    ensures Pad2(7) == "07" && Pad2(0) == "00" && Pad2(1) == "01" && IntToString(2000) == "2000"
  {
    OneDigitNumeral(7);
    OneDigitNumeral(0);
    OneDigitNumeral(1);
    TwoDigitNumeral(20);
    assert NatToString(200) == NatToString(20) + [DigitChar(0)];
    assert NatToString(2000) == NatToString(200) + [DigitChar(0)];
  }

  /** The saved strings' concatenation over abstract parts. */
  lemma InitialStrings(hh: string, mm: string, yyyy: string, oo: string)
    requires hh == "07" && mm == "00" && yyyy == "2000" && oo == "01"
    ensures hh + ":" + mm == "07:00"
    ensures yyyy + "-" + oo + "-" + oo == "2000-01-01"
  {
  }

  // ---------------------------------------------------------------------
  // Loading a saved profile back into the pickers
  // ---------------------------------------------------------------------

  /** The picker values restored from a profile; None is `NaN`. */
  datatype Restored = Restored(
    birthYear: Option<int>, birthMonth: Option<int>, birthDay: Option<int>,
    lifeExpectancy: int,
    startHour: Option<int>, startMinute: Option<int>,
    endHour: Option<int>, endMinute: Option<int>,
    focusMode: FocusMode)

  /** Splits the birth date at '-' and the times at ':' and converts each
      part with `Number`; `Math.round` leaves the whole life expectancy as
      it is. */
  function LoadForm(p: Profile): Restored {
    var birth := ParseDateString(p.birthISO);
    var start := ParseHHMM(p.activeStart);
    var end := ParseHHMM(p.activeEnd);
    Restored(birth.year, birth.month, birth.day, p.lifeExpectancyYears,
             start.h, start.m, end.h, end.m, p.defaultFocusMode)
  }

  /** Formatting a time as `HH:MM` and reading it back recovers the hour and
      minute, for any non-negative fields. */
  lemma HHMMRoundTrip(h: nat, m: nat)
    ensures ParseHHMM(HHMM(h, m)) == Clock(Some(h), Some(m))
  {
    NumeralsExclude(h, ':');
    NumeralsExclude(m, ':');
    SplitTwoFields(Pad2(h), ":", Pad2(m));
    NumberOfPad2(h);
    NumberOfPad2(m);
  }

  /** Whatever is saved is restored into the same picker selections. */
  lemma SaveLoadRoundTrip(f: Form)
    requires NonNegative(f) && OnSave(f).Saved?
    ensures LoadForm(OnSave(f).profile)
            == Restored(Some(f.birthYear), Some(f.birthMonth), Some(f.birthDay), f.lifeExpectancy,
                        Some(f.startHour), Some(f.startMinute), Some(f.endHour), Some(f.endMinute),
                        f.focusMode)
  {
    DateStringRoundTrip(f.birthYear, f.birthMonth, f.birthDay);
    HHMMRoundTrip(f.startHour, f.startMinute);
    HHMMRoundTrip(f.endHour, f.endMinute);
  }

  // ---------------------------------------------------------------------
  // What the home screen makes of a saved window
  // ---------------------------------------------------------------------

  /** The home screen reads a saved window back as the instants of its
      start and end times on the current day. */
  lemma SavedWindowInstants(f: Form, nowMs: int, dayStartMs: int)
    requires ClockFields(f) && OnSave(f).Saved?
    ensures CalcTodayActiveRemainingMs(nowMs, dayStartMs, OnSave(f).profile)
            == Some(ActiveRemaining(nowMs, AtTimeOfDay(dayStartMs, f.startHour, f.startMinute),
                                    AtTimeOfDay(dayStartMs, f.endHour, f.endMinute)))
  {
    var p := OnSave(f).profile;
    HHMMRoundTrip(f.startHour, f.startMinute);
    HHMMRoundTrip(f.endHour, f.endMinute);
    ParsedWindow(nowMs, dayStartMs, p, f.startHour, f.startMinute, f.endHour, f.endMinute);
  }

  /** Instants of the same day are ordered as their minutes after midnight,
      and lie that many minutes apart. */
  lemma InstantsFollowMinutes(dayStartMs: int, h1: int, m1: int, h2: int, m2: int)
    ensures AtTimeOfDay(dayStartMs, h2, m2) - AtTimeOfDay(dayStartMs, h1, m1)
            == ((h2 * 60 + m2) - (h1 * 60 + m1)) * 60000
  {
    assert MsPerHour == 3600000 && MsPerMin == 60000;
  }

  /** A saved overnight window never shows positive remaining active time
      on the home screen: the calculator adds no day to its end. */
  lemma SavedOvernightWindowNeverPositive(f: Form, nowMs: int, dayStartMs: int)
    requires ClockFields(f) && RawEndMinutes(f) < StartMinutes(f)
    ensures OnSave(f).Saved?
    ensures var r := CalcTodayActiveRemainingMs(nowMs, dayStartMs, OnSave(f).profile);
            r.Some? && r.value <= 0
  {
    SavedWindowInstants(f, nowMs, dayStartMs);
    InstantsFollowMinutes(dayStartMs, f.startHour, f.startMinute, f.endHour, f.endMinute);
  }

  /** A saved same-day window shows between 0 and the whole window. */
  lemma SavedDaytimeWindowBounded(f: Form, nowMs: int, dayStartMs: int)
    requires ClockFields(f) && StartMinutes(f) < RawEndMinutes(f)
    ensures OnSave(f).Saved?
    ensures var r := CalcTodayActiveRemainingMs(nowMs, dayStartMs, OnSave(f).profile);
            r.Some? && 0 <= r.value <= ActivityMinutes(f) * 60000
  {
    SavedWindowInstants(f, nowMs, dayStartMs);
    var startMs := AtTimeOfDay(dayStartMs, f.startHour, f.startMinute);
    var endMs := AtTimeOfDay(dayStartMs, f.endHour, f.endMinute);
    InstantsFollowMinutes(dayStartMs, f.startHour, f.startMinute, f.endHour, f.endMinute);
    assert ActivityMinutes(f) == RawEndMinutes(f) - StartMinutes(f);
    assert endMs - startMs == ActivityMinutes(f) * 60000;
    var r := ActiveRemaining(nowMs, startMs, endMs);
    assert 0 <= r <= endMs - startMs;
  }
}
