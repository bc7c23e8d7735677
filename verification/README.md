# Life-time calculator core, modelled in Dafny

The app shows how much of a life is left. It projects an end of life from
a birth date and a life expectancy in average Gregorian years, renders the
remaining time in a chosen unit, and shows what is left of today's active
hours. It keeps one-line notes per day and per ISO week, and lists past
notes with filters. This project models the pure core of that app as
functions over integers, reals and strings, and proves properties of it.

Modules, one file each:

- `Wrappers` holds `Option`, which stands for `null` and for `NaN`.
- `Text` holds the JavaScript primitives the core relies on: `String(n)`,
  `padStart`, `split`, `startsWith`, `includes`, `trim` blankness,
  `Number(s)` and `parseInt(s)`.
- `Types` holds the shared types `Unit`, `FocusMode` and `Profile`.
- `Calendar` holds the proleptic Gregorian calendar as day numbers since
  1970-01-01, as `Date.UTC` counts them, together with weekdays and the
  `Y-MM-DD` date string.
- `Calc` holds the life figures and today's remaining active time.
- `Format` holds the per-unit rendering, the fourteen-digit odometer, the
  `h m s` rendering and the date-time rendering.
- `Focus` holds note normalisation, the day id, the week id under the ISO
  8601 Thursday rule, and the note labels.
- `Settings` holds the save check and the strings a profile is saved as.
  It also covers reading a profile back into the pickers, and what the
  home screen makes of a saved window.
- `Store` holds the profile reducer and its `loaded` flag.
- `Seqs` holds order-preserving `filter` and `new Set` de-duplication.
- `History` holds the key classification, the type, year-month and search
  filters, the year-month choices, and the display of dates.

Instants are integer milliseconds. Quantities that are whole in the app
are integers, and the two fractional results are reals: the life
`progress` and the years figure. A parse that yields `NaN` is `None`. A
`Date` whose local fields the code reads is passed in as those fields. For
the current day, the model takes the instant of local midnight.

Overnight active windows follow the code. The settings screen accepts an
end time before the start time as an overnight window (an end equal to
the start is a full day and is refused); its
comment at `settings.tsx:101` says so. `calcTodayActiveRemainingMs` places
both times on the current day and adds no day to the end, and its own
header comment assumes start < end. So a saved window such as 23:00-02:00
never reports positive remaining time. It reports 0 at 23:30 and minus 21
hours at 01:00. The model states this (`Calc.OvernightWindowNeverPositive`,
`Settings.SavedOvernightWindowNeverPositive`) rather than an intended
rollover through midnight.

## Model

| member | source | states |
|---|---|---|
| Calc.AverageLengths | apps/mobile/src/core/time/calc.ts:7-8 | 365.2425 days and a twelfth of that are whole millisecond counts, and twelve average months make exactly one average year |
| Calc.CalcEndDateMs | apps/mobile/src/core/time/calc.ts:10-12 | the end instant is birth plus the years times 365.2425 days, exactly, in real arithmetic |
| Calc.Clamp | apps/mobile/src/core/time/calc.ts:14-16 | the result lies in [lo, hi] when lo <= hi; a value inside is kept, one below gives lo, and one above (or crossed bounds) gives hi |
| Calc.CalcLife | apps/mobile/src/core/time/calc.ts:18-26 | total is end minus birth, or 0 when the end lies before birth; remaining is end minus now up to the end and 0 from then on; lived lies in [0, total], and is all of total once the end has passed; progress lies in [0, 1] and times total gives lived. Between birth and end, lived is now minus birth and lived plus remaining is total. After the end, remaining is 0 and progress 1. Before birth, lived and progress are 0 |
| Calc.ActiveRemaining | apps/mobile/src/core/time/calc.ts:51-54 | before the start it is the whole window, inside it the time to the end, after the end 0; for a same-day window it stays within [0, window length]; it is never positive when the end lies before the start |
| Calc.ActiveRemainingNum | apps/mobile/src/core/time/calc.ts:44-55 | an unparseable end gives `NaN`; an unparseable start makes the start comparison false, leaving max(0, end - now) |
| Calc.CalcTodayActiveRemainingMs | apps/mobile/src/core/time/calc.ts:44-55 | the result is `NaN` exactly when the end time does not parse |
| Calc.ParsedWindow | apps/mobile/src/core/time/calc.ts:34-55 | when both times parse as clocks, the result is the window rule applied to those clock times on the current day |
| Calc.OvernightWindowNeverPositive | apps/mobile/src/core/time/calc.ts:39-55 | with the end before the start, the result is negative before the start and 0 from the start on |
| Calc.OvernightWindowExample | apps/mobile/src/core/time/calc.ts:48-54 | 23:00-02:00 gives 0 at 23:30 and minus 21 hours at 01:00 |
| Calc.DaytimeWindowExample | apps/mobile/src/core/time/calc.ts:48-54 | 07:00-23:00 gives 16 hours at 06:00, 1 hour at 22:00 and 0 at 23:30 |
| Calendar.IsoWeekday | apps/mobile/src/features/focus/focus.ts:10 | `getUTCDay() \|\| 7` lies in 1..7 and agrees with `getUTCDay()` modulo 7 |
| Calendar.YearLength | apps/mobile/src/features/focus/focus.ts:9-13 | consecutive year starts are 365 days apart, 366 after a leap year |
| Calendar.YearStartsIncrease | apps/mobile/src/features/focus/focus.ts:12 | later years start later |
| Calendar.YearOfDayUnique | apps/mobile/src/features/focus/focus.ts:12-14 | every day number lies in at most one year |
| Calendar.DayNumberInYear | apps/mobile/src/features/focus/focus.ts:9 | a valid date's day number lies in its own year |
| Calendar.EpochIsDayZero | apps/mobile/src/features/focus/focus.ts:9-10 | 1970-01-01 is day 0 and a Thursday |
| Calendar.SplitDateString | apps/mobile/src/features/focus/focus.ts:18-23 | a date string splits at '-' into the unpadded year and the two padded fields |
| Calendar.DateStringRoundTrip | apps/mobile/src/core/time/calc.ts:30 | `split("-").map(Number)` of a formatted date gives back its year, month and day |
| Calendar.DateStringShape | apps/mobile/src/core/time/format.ts:59-67 | with a four-digit year and two-digit fields, the date is 10 characters with dashes at positions 4 and 7 |
| Format.Decompose | apps/mobile/src/core/time/format.ts:36-55 | the split of max(0, ms) is greedy, largest unit first: after each field, what is left is less than one of that field's unit; so every field below the years stays below its unit's carry, and the fields account for the duration to within one second |
| Format.DecomposeUnique | apps/mobile/src/core/time/format.ts:36-55 | any fields that split the duration greedily are exactly the decomposed ones |
| Format.DecomposeOneYear | apps/mobile/src/core/time/format.ts:36-55 | one average year decomposes as one year and nothing else, not as 11 months and 30 days |
| Format.FormatDigitsRoundTrip | apps/mobile/src/core/time/format.ts:36-57 | below 10000 years the odometer is 14 digits that read back as exactly the six decomposed fields |
| Format.FormatDigitsNegative | apps/mobile/src/core/time/format.ts:36-57 | a negative duration shows as fourteen zeros |
| Format.FormatDigitsLong | apps/mobile/src/core/time/format.ts:16-18 | `pad4` never truncates, so past 9999 years the odometer is longer than 14 characters |
| Format.SplitHms | apps/mobile/src/core/time/format.ts:69-75 | minutes and seconds lie in 0..59, and h*3600 + m*60 + s equals max(0, floor(ms / 1000)) |
| Format.FormatDurationHMSNegative | apps/mobile/src/core/time/format.ts:69-75 | a negative duration renders as "0h 0m 0s" |
| Format.FormatRemaining | apps/mobile/src/core/time/format.ts:23-30 | seconds, days, weeks and average months give the whole number of units that fit, with the unit's word; years give the exact quotient; minutes, hours and digits fall through to the odometer |
| Format.FormatDateTimeShape | apps/mobile/src/core/time/format.ts:59-67 | the rendering is 19 characters with its separators at fixed positions and the time fields at fixed slices |
| Focus.ReplaceNewlines | apps/mobile/src/features/focus/focus.ts:26 | no LF is left and the text never grows |
| Focus.ReplaceNewlinesCounts | apps/mobile/src/features/focus/focus.ts:26 | the result has as many spaces as the input has spaces and LFs together, as many of every other character except CR, and each CR LF pair shortens the text by one |
| Focus.ReplaceNewlinesAppend | apps/mobile/src/features/focus/focus.ts:26 | cut anywhere except between the CR and the LF of a pair, the text is replaced piece by piece, each piece in its own place |
| Focus.ReplaceNewlinesLoneCr | apps/mobile/src/features/focus/focus.ts:26 | a lone CR right before a CR LF pair stays, and the pair becomes one space |
| Focus.ReplaceNewlinesPieces | apps/mobile/src/features/focus/focus.ts:26 | a CR LF pair and a lone LF each become one space, and any other character stays |
| Focus.ReplaceNewlinesInPlace | apps/mobile/src/features/focus/focus.ts:26 | text without CR keeps its length, and each LF becomes a space at its own position while every other character stays put |
| Focus.ReplaceNewlinesIdentity | apps/mobile/src/features/focus/focus.ts:26 | text without a LF is left unchanged |
| Focus.TakeUnits | apps/mobile/src/features/focus/focus.ts:26 | `slice(0, n)` counts UTF-16 code units: the result is the longest prefix that fits in n units, so the next character would not fit |
| Focus.NormalizeOneLine | apps/mobile/src/features/focus/focus.ts:25-27 | the result is at most 120 UTF-16 code units long and holds no LF; it is the longest prefix of the newline-replaced text that fits in 120 units |
| Focus.NormalizeOneLineKeeps | apps/mobile/src/features/focus/focus.ts:25-27 | a single line of at most 120 code units is kept as it is |
| Focus.NormalizeOneLineBmp | apps/mobile/src/features/focus/focus.ts:25-27 | text of the Basic Multilingual Plane keeps its first 120 characters |
| Focus.NormalizeOneLineAstral | apps/mobile/src/features/focus/focus.ts:25-27 | a line of characters outside the Basic Multilingual Plane keeps only its first 60, as each takes two code units |
| Focus.NormalizeOneLineIdempotent | apps/mobile/src/features/focus/focus.ts:25-27 | normalising twice is normalising once |
| Focus.GetDayIdFields | apps/mobile/src/features/focus/focus.ts:18-23 | the day id splits into the year and exactly two-digit month and day, and it reads back as the date |
| Focus.Thursday | apps/mobile/src/features/focus/focus.ts:10-11 | the shifted day is a Thursday within three days of the date |
| Focus.ThursdayYear | apps/mobile/src/features/focus/focus.ts:9-14 | the Thursday lies in the date's year, except in the year before only for January 1-3 and in the year after only for December 29-31 |
| Focus.WeekNumberRange | apps/mobile/src/features/focus/focus.ts:13 | a day of a year falls in week 1 to 53 of it |
| Focus.WeekOf | apps/mobile/src/features/focus/focus.ts:7-15 | the week's year holds the Thursday, the week number lies in 1..53 and counts whole weeks from the start of that year to the Thursday, and the year differs from the date's only at the turn of the year |
| Focus.GetWeekIdFields | apps/mobile/src/features/focus/focus.ts:7-16 | the week id splits at "-W" into the week's year and a two-digit week number that reads back as the number |
| Focus.SplitWeekIdString | apps/mobile/src/features/focus/focus.ts:15 | a week id splits at "-W" into its two fields |
| Focus.SameWeekSameId | apps/mobile/src/features/focus/focus.ts:7-16 | two dates with the same Monday have the same week and the same week id |
| Focus.WeekStartsAtMonday | apps/mobile/src/features/focus/focus.ts:10-11 | the seven days from a Monday all belong to the week of that Monday |
| Focus.MondayToSundayOneId | apps/mobile/src/features/focus/focus.ts:7-16 | every date from a Monday to the following Sunday has the Monday's week id |
| Focus.JanuaryFourthIsWeekOne | apps/mobile/src/features/focus/focus.ts:7-16 | January 4 is always in week 1 of its own year |
| Focus.DecemberTwentyEighthIsLastWeek | apps/mobile/src/features/focus/focus.ts:7-16 | December 28 is always in week 52 or 53 of its own year |
| Focus.LabelsDiffer | apps/mobile/src/features/focus/focus.ts:29-31 | the two note kinds get different labels, "today's" and "this week's" |
| Settings.EndMinutes | apps/mobile/app/settings.tsx:98-104 | an end at or before the start moves to the next day; otherwise it is kept |
| Settings.ActivityMinutes | apps/mobile/app/settings.tsx:97-107 | on a clock the window is 1 to 1440 minutes long, and exactly 1440 when start and end coincide |
| Settings.OnSave | apps/mobile/app/settings.tsx:87-125 | saving is refused, with the fixed message, exactly when the window is not between 1 minute and 23:59; otherwise the profile carries the formatted birth date, the two `HH:MM` times, the life expectancy and the focus mode |
| Settings.RejectedIffSameTime | apps/mobile/app/settings.tsx:97-112 | on a clock, saving is refused exactly when the start and end times are the same |
| Settings.OvernightWindowAccepted | apps/mobile/app/settings.tsx:101-112 | an end before the start is saved as an overnight window whose length runs through midnight |
| Settings.InitialFormSaves | apps/mobile/app/settings.tsx:29-44 | the initial selections lie within the pickers' ranges and save as 2000-01-01 and 07:00 |
| Settings.HHMMRoundTrip | apps/mobile/app/settings.tsx:73-79 | `split(":").map(Number)` of a formatted time gives back the hour and minute |
| Settings.SaveLoadRoundTrip | apps/mobile/app/settings.tsx:61-125 | loading a saved profile restores exactly the selections it was saved from |
| Settings.SavedWindowInstants | apps/mobile/src/core/time/calc.ts:44-55 | the home screen reads a saved window as its start and end clock times on the current day |
| Settings.InstantsFollowMinutes | apps/mobile/src/core/time/calc.ts:48-49 | two times of the same day lie their difference in minutes times 60000 ms apart |
| Settings.SavedOvernightWindowNeverPositive | apps/mobile/app/settings.tsx:97-104 | an overnight window is saved, yet its remaining active time is never positive |
| Settings.SavedDaytimeWindowBounded | apps/mobile/src/core/time/calc.ts:39-55 | a saved same-day window shows between 0 and the whole window |
| Store.Reduce | apps/mobile/src/features/profile/store.tsx:15-24 | both actions replace the profile; LOAD sets `loaded`, and SET_PROFILE leaves it as it was |
| Store.RunLoaded | apps/mobile/src/features/profile/store.tsx:15-24 | after any action sequence the store is loaded exactly when it was loaded before or the sequence holds a LOAD, so `loaded` never goes back |
| Store.RunProfile | apps/mobile/src/features/profile/store.tsx:15-24 | after any non-empty action sequence the profile is the one the last action installed |
| Store.InitialRunLoaded | apps/mobile/src/features/profile/store.tsx:13 | the initial state has no profile and is not loaded, and from it the store is loaded exactly after a LOAD |
| Seqs.KeepSubsequence | apps/mobile/app/history.tsx:110-113 | `filter` keeps only elements that satisfy the predicate, drawn from the list in their original order |
| Seqs.KeepCounts | apps/mobile/app/history.tsx:110-113 | `filter` keeps each satisfying element exactly as often as it occurs |
| Seqs.KeepFiltered | apps/mobile/app/history.tsx:110-113 | `filter` is exactly the in-order selection by the predicate |
| Seqs.Dedup | apps/mobile/app/history.tsx:86-97 | `Array.from(new Set(...))` has no duplicates and the same elements as its input |
| History.ToEntry | apps/mobile/app/history.tsx:44-62 | a note becomes an entry exactly when its key has the day or week prefix and its text is not blank. The entry's kind follows the prefix, its id and date are the key minus the prefix, and its content is the text |
| History.LoadEntries | apps/mobile/app/history.tsx:41-68 | the entries are exactly those of the stored notes that yield one |
| History.PrefixesExclusive | apps/mobile/app/history.tsx:8-9 | no key carries both the day and the week prefix |
| History.StoredNoteRoundTrip | apps/mobile/app/history.tsx:55-62 | a non-blank note stored under a prefixed id comes back as the entry of that kind and id |
| History.ApplyTypeFilter | apps/mobile/app/history.tsx:107-125 | "all", or "yearmonth" with no selection, keeps the list; "day" and "week" keep exactly the entries of their kind; "yearmonth" keeps exactly the matching entries; order is kept in every case |
| History.ApplySearch | apps/mobile/app/history.tsx:127-135 | a blank query keeps the list; any other query keeps exactly, in order, the entries whose lower-cased content includes the lower-cased query or whose date includes the query |
| History.Visible | apps/mobile/app/history.tsx:106-135 | the shown entries come from the history and match a non-blank query; with "all" and a blank query, everything is shown |
| History.YearMonthOptions | apps/mobile/app/history.tsx:86-98 | the choices have no duplicates and are exactly the year-months of the entries |
| History.OptionSelectsItsEntry | apps/mobile/app/history.tsx:86-124 | choosing the year-month an entry contributed keeps that entry |
| History.OptionsAreNeverEmpty | apps/mobile/app/history.tsx:86-124 | every offered year-month keeps at least one entry when chosen |
| History.DayEntryYearMonth | apps/mobile/app/history.tsx:88-92 | a day entry is listed under its year and two-digit month |
| History.WeekEntryYearMonth | apps/mobile/app/history.tsx:93-94 | a week entry is listed under `YYYY-01` of its week's year |
| History.DayEntryMatchesIff | apps/mobile/app/history.tsx:115-119 | a day entry matches a selected year and month exactly when it falls in them |
| History.WeekEntryMatchesIff | apps/mobile/app/history.tsx:120-123 | a week entry matches a selected year and month exactly when its year is the selected year, whatever the month |
| History.FormatDayDate | apps/mobile/app/history.tsx:30-33 | a day id shows as its year, then the month and day without padding |
| History.FormatWeekDate | apps/mobile/app/history.tsx:34-38 | a week id shows as its year and the week number without padding |
| History.FormatDayExample | apps/mobile/app/history.tsx:31-33 | "2026-01-28" shows as 2026年1月28日 |
| History.FormatWeekExample | apps/mobile/app/history.tsx:35-37 | "2026-W05" shows as 2026年 第5週 |
| History.YearMonthLabel | apps/mobile/app/history.tsx:100-104 | a year-month choice is labelled with its year and unpadded month, and no selection shows the prompt |
| Text.NatToString | apps/mobile/src/features/focus/focus.ts:20-21 | `String(n)` is a non-empty run of digits with no leading zero |
| Text.DigitsValueOfNatToString | apps/mobile/app/settings.tsx:91 | the numeral denotes the number |
| Text.NatToStringInjective | apps/mobile/src/features/focus/focus.ts:18-23 | distinct numbers have distinct numerals, so a numeral field of an id names one number |
| Text.NatToStringLength | apps/mobile/src/core/time/format.ts:16-18 | a numeral has at most k digits exactly when the number is below 10^k |
| Text.PadStart | apps/mobile/src/core/time/format.ts:13-18 | `padStart` gives length max(length, width), keeps the text as the suffix, and fills the prefix |
| Text.PaddedValue | apps/mobile/src/core/time/format.ts:13-18 | a zero-padded numeral is all digits and denotes the number |
| Text.Pad2Exact | apps/mobile/src/core/time/format.ts:13-15 | 0..99 pads to exactly two digits denoting the value |
| Text.Pad4Exact | apps/mobile/src/core/time/format.ts:16-18 | 0..9999 pads to exactly four digits denoting the value |
| Text.ParseNumber | apps/mobile/app/settings.tsx:65 | `Number(s)` is defined exactly on digit strings, and is never negative there |
| Text.ParseInt | apps/mobile/app/history.tsx:33 | for text without a sign, leading whitespace or a `0x` prefix, `parseInt(s)` is `NaN` exactly when `s` does not start with a digit |
| Text.ParseIntPrefix | apps/mobile/app/history.tsx:33 | otherwise it is the value of the leading run of digits, whatever follows it |
| Text.ParsePadded | apps/mobile/app/history.tsx:33 | `Number` and `parseInt` both read a zero-padded numeral back as the number |
| Text.IndexOf | apps/mobile/app/settings.tsx:65 | the result is the first occurrence at or after `from`, or -1 when there is none |
| Text.Split | apps/mobile/app/settings.tsx:65 | `split` always yields at least one part |
| Text.SplitPeel | apps/mobile/app/settings.tsx:65 | a leading field without the separator's first character is split off whole |
| Text.SplitWhole | apps/mobile/app/settings.tsx:65 | a field without the separator's first character is not split |

## Left out

- Storage. `AsyncStorage`, `loadProfile`/`saveProfile` and the async loop over keys in `history.tsx:41-76` are I/O. A stored note enters the model as its key and the `text` of its value. A missing value, a value that is not JSON, and a value without a string `text` all become `None`.
- Sorting. Entries are sorted newest-first and year-months sorted descending with `localeCompare` (`history.tsx:71`, `history.tsx:98`). Locale-aware comparison is platform code. Order is not stated for `History.LoadEntries` or `History.YearMonthOptions`.
- Format.FormatRemaining: it returns the number and the unit's word, not the final text. `toLocaleString` grouping and `toFixed(2)` are locale and floating-point formatting.
- Calc.CalcEndDateMs: the life expectancy is a whole number of years. The app's pickers only offer whole years. With whole years the real product is an integer, but the double product `(years * 365.2425) * 86400000` can be off by a fraction of a millisecond (45 years gives 1420062839999.9998). Fractional years, and IEEE-754 rounding of the product in general, are not modelled.
- Focus.NormalizeOneLine: when the 120th code unit is the first half of a surrogate pair, `slice` keeps a lone high surrogate, which a Dafny `char` cannot hold; the model drops the whole character instead.
- JavaScript `Date` local time is not modelled: time zones, daylight saving, and the local getters. `parseBirthISOToMs` (`calc.ts:28-32`) is modelled only up to `split("-").map(Number)`. `Date` construction takes the local time zone, which is left out. `formatDateTime`, `getDayId` and `getWeekId` take the local calendar fields, and `calcTodayActiveRemainingMs` takes the instant of local midnight.
- `Date.UTC` maps years 0-99 to 1900-1999; the model's day numbers use the year as given.
- Text.ParseNumber: `Number(s)` is modelled only for digit strings. Signs, decimals, exponents, hex and surrounding whitespace all give `NaN` here. The core only parses numerals it wrote itself. Results are exact unbounded integers and `String(n)` never switches to exponent form, whereas JavaScript numbers round above 2^53 and print from 1e21 on with an exponent; the app's own short numerals stay far below either.
- Text.ParseInt: leading whitespace and signs are not skipped, and a `0x` or `0X` prefix is not read as hexadecimal (JavaScript gives `NaN` for "0x" and 26 for "0x1A"; the model gives 0 for both). The core only applies `parseInt` to digit fields it wrote itself.
- History.ApplySearch: `toLowerCase` is a parameter, because Unicode case mapping is platform code.
- UI and wiring are not modelled: React rendering, pickers and modals, navigation, `Linking`, timers, the store's context provider and hook (`store.tsx:26-51`), `setError` and `router.replace`.
- The reducer's `default` branch is unreachable for the two typed actions and has no counterpart.
- `Math.round` of the loaded life expectancy is the identity on the whole years the app saves.
- Format.FormatDigits carries no contract of its own. Its properties are stated by `Format.FormatDigitsRoundTrip`, `Format.FormatDigitsNegative` and `Format.FormatDigitsLong`.
