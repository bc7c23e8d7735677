/** The history screen: which stored keys become note entries, the type,
    year-month and text filters applied to them, the year-month choices
    offered, and how entry dates and year-months are displayed. */
module History {
  import opened Wrappers
  import opened Text
  import opened Calendar
  import opened Focus
  import opened Seqs

  const DayPrefix: string := "ttl:focus:day:"
  const WeekPrefix: string := "ttl:focus:week:"

  datatype Kind = Day | Week

  /** One note in the history; `date` is the note's day or week id. */
  datatype Entry = Entry(id: string, date: string, content: string, kind: Kind)

  /** A stored key with the `text` of its value: None when nothing is
      stored, the value is not JSON, or it has no string `text`. */
  datatype StoredNote = StoredNote(key: string, text: Option<string>)

  function PrefixOf(k: Kind): string {
    if k == Day then DayPrefix else WeekPrefix
  }

  predicate IsNoteKey(key: string) {
    StartsWith(key, DayPrefix) || StartsWith(key, WeekPrefix)
  }

  /** The entry a stored note yields: notes under a day or week key whose
      text is not blank, with the key minus its prefix as both id and
      date; every other key is ignored. */
  function ToEntry(n: StoredNote): (e: Option<Entry>)
    ensures e.Some? <==> IsNoteKey(n.key) && n.text.Some? && !Blank(n.text.value)
    ensures e.Some? ==>
              && e.value.date == e.value.id
              && e.value.content == n.text.value
              && (e.value.kind == Day <==> StartsWith(n.key, DayPrefix))
              && n.key == PrefixOf(e.value.kind) + e.value.id
  {
    if !IsNoteKey(n.key) || n.text.None? || Blank(n.text.value) then None
    else
      var kind := if StartsWith(n.key, DayPrefix) then Day else Week;
      var id := n.key[|PrefixOf(kind)|..];
      assert n.key == n.key[..|PrefixOf(kind)|] + id;
      Some(Entry(id, id, n.text.value, kind))
  }

  /** The entries of the stored notes, in key order. */
  function LoadEntries(notes: seq<StoredNote>): (r: seq<Entry>)
    ensures |r| <= |notes|
    ensures forall e :: e in r ==> exists n :: n in notes && ToEntry(n) == Some(e)
    ensures forall n :: n in notes && ToEntry(n).Some? ==> ToEntry(n).value in r
    decreases |notes|
  {
    if notes == [] then []
    else
      var rest := LoadEntries(notes[1..]);
      assert notes == [notes[0]] + notes[1..];
      match ToEntry(notes[0])
      case Some(e) => [e] + rest
      case None => rest
  }

  /** A day key and a week key never look alike: no key has both prefixes. */
  lemma PrefixesExclusive(key: string)
    ensures !(StartsWith(key, DayPrefix) && StartsWith(key, WeekPrefix))
  {
    if StartsWith(key, DayPrefix) {
      assert key[..|DayPrefix|][10] == 'd';
      if |WeekPrefix| <= |key| {
        assert key[..|WeekPrefix|][10] == 'd';
      }
    }
  }

  /** Storing a non-blank note under a day or week id gives back the entry
      of that kind with that id. */
  lemma StoredNoteRoundTrip(k: Kind, id: string, text: string)
    requires !Blank(text)
    ensures ToEntry(StoredNote(PrefixOf(k) + id, Some(text))) == Some(Entry(id, id, text, k))
  {
    var key := PrefixOf(k) + id;
    assert key[..|PrefixOf(k)|] == PrefixOf(k);
    PrefixesExclusive(key);
  }

  // ---------------------------------------------------------------------
  // Filters
  // ---------------------------------------------------------------------

  datatype TypeFilter = All | DayOnly | WeekOnly | YearMonth

  /** The year-month an entry is listed under: `YYYY-MM` of a day id, and
      `YYYY-01` for a week id, whose month is not known. */
  function YearMonthOf(e: Entry): string {
    if e.kind == Day then
      var parts := Split(e.date, "-");
      PartOr(parts, 0) + "-" + PartOr(parts, 1)
    else
      Split(e.date, "-W")[0] + "-01"
  }

  /** The year part of a week id. */
  function WeekYear(e: Entry): string {
    Split(e.date, "-W")[0]
  }

  /** Day entries match the whole selected `YYYY-MM`; week entries match
      on the year alone. */
  predicate MatchesYearMonth(e: Entry, selected: string) {
    if e.kind == Day then YearMonthOf(e) == selected
    else WeekYear(e) == Split(selected, "-")[0]
  }

  /** The entries of one kind, as a filter predicate. */
  function OfKind(k: Kind): Entry -> bool {
    (e: Entry) => e.kind == k
  }

  /** The entries matching a selected year-month, as a filter predicate. */
  function InYearMonth(selected: string): Entry -> bool {
    (e: Entry) => MatchesYearMonth(e, selected)
  }

  /** The type filter: "day" and "week" keep the entries of their kind,
      "yearmonth" with a selection keeps the matching entries, and "all" or
      an empty selection keeps everything; order and repetitions are kept. */
  function ApplyTypeFilter(h: seq<Entry>, f: TypeFilter, selected: string): (r: seq<Entry>)
    ensures f == All || (f == YearMonth && selected == "") ==> r == h
    ensures f == DayOnly ==> FilteredBy(r, h, OfKind(Day))
    ensures f == WeekOnly ==> FilteredBy(r, h, OfKind(Week))
    ensures f == YearMonth && selected != "" ==> FilteredBy(r, h, InYearMonth(selected))
  {
    match f
    case DayOnly => KeepFiltered(h, OfKind(Day)); Keep(h, OfKind(Day))
    case WeekOnly => KeepFiltered(h, OfKind(Week)); Keep(h, OfKind(Week))
    case YearMonth =>
      if selected == "" then h
      else KeepFiltered(h, InYearMonth(selected)); Keep(h, InYearMonth(selected))
    case All => h
  }

  /** The entry matches the query: the lower-cased query occurs in the
      lower-cased content, or the query as typed occurs in the date. */
  predicate MatchesSearch(e: Entry, query: string, lower: string -> string) {
    Includes(lower(e.content), lower(query)) || Includes(e.date, query)
  }

  /** The entries matching a query, as a filter predicate. */
  function Searching(query: string, lower: string -> string): Entry -> bool {
    (e: Entry) => MatchesSearch(e, query, lower)
  }

  /** A blank query keeps every entry; any other keeps exactly the entries
      that match it. `lower` is the platform's `toLowerCase`. */
  function ApplySearch(h: seq<Entry>, query: string, lower: string -> string): (r: seq<Entry>)
    ensures Blank(query) ==> r == h
    ensures !Blank(query) ==> FilteredBy(r, h, Searching(query, lower))
  {
    if Blank(query) then h
    else KeepFiltered(h, Searching(query, lower)); Keep(h, Searching(query, lower))
  }

  /** The list shown: the type filter, then the search. */
  function Visible(h: seq<Entry>, f: TypeFilter, selected: string, query: string, lower: string -> string): (r: seq<Entry>)
    ensures forall e :: e in r ==> e in h
    ensures forall e :: e in r && !Blank(query) ==> MatchesSearch(e, query, lower)
    ensures f == All && Blank(query) ==> r == h
  {
    ApplySearch(ApplyTypeFilter(h, f, selected), query, lower)
  }

  // ---------------------------------------------------------------------
  // Year-month choices
  // ---------------------------------------------------------------------

  /** The year-months offered by the picker, each once (their ordering is
      left to a locale comparison). */
  function YearMonthOptions(h: seq<Entry>): (r: seq<string>)
    ensures NoDuplicates(r)
    ensures forall e :: e in h ==> YearMonthOf(e) in r
    ensures forall o :: o in r ==> exists e :: e in h && YearMonthOf(e) == o
  {
    var all := Map(h, YearMonthOf);
    assert forall e :: e in h ==> YearMonthOf(e) in all by {
      forall e | e in h ensures YearMonthOf(e) in all {
        var i :| 0 <= i < |h| && h[i] == e;
        assert all[i] == YearMonthOf(e);
      }
    }
    Dedup(all)
  }

  /** Choosing the option an entry contributed keeps that entry, unless it
      is a week entry whose year part itself contains '-'. */
  lemma OptionSelectsItsEntry(e: Entry)
    requires e.kind == Day || '-' !in WeekYear(e)
    ensures MatchesYearMonth(e, YearMonthOf(e))
  {
    if e.kind == Week {
      assert WeekYear(e) + "-01" == WeekYear(e) + "-" + "01";
      SplitPeel(WeekYear(e), "-", "01");
    }
  }

  /** Every option offered keeps at least one entry when chosen. */
  lemma OptionsAreNeverEmpty(h: seq<Entry>, o: string)
    requires forall e :: e in h && e.kind == Week ==> '-' !in WeekYear(e)
    requires o in YearMonthOptions(h)
    ensures ApplyTypeFilter(h, YearMonth, o) != []
  {
    var e :| e in h && YearMonthOf(e) == o;
    OptionSelectsItsEntry(e);
    if o != "" {
      FilteredKeeps(ApplyTypeFilter(h, YearMonth, o), h, InYearMonth(o), e);
    }
  }

  /** A day entry of a well-formed date is listed under its year and
      two-digit month. */
  lemma DayEntryYearMonth(e: Entry, y: nat, m: nat, d: nat)
    requires e.kind == Day && e.date == DateString(y, m, d)
    ensures YearMonthOf(e) == NatToString(y) + "-" + Pad2(m)
  {
    SplitDateString(y, m, d);
  }

  /** A week entry of a well-formed week id is listed under January of its
      year. */
  lemma WeekEntryYearMonth(e: Entry, y: nat, w: nat)
    requires e.kind == Week && e.date == WeekIdString(IsoWeek(y, w))
    ensures WeekYear(e) == NatToString(y)
    ensures YearMonthOf(e) == NatToString(y) + "-01"
  {
    SplitWeekIdString(y, w);
  }

  /** A `YYYY-MM` selection splits back into its year and month fields. */
  lemma SplitYearMonth(y: nat, m: nat)
    ensures Split(NatToString(y) + "-" + Pad2(m), "-") == [NatToString(y), Pad2(m)]
  {
    NumeralsExclude(y, '-');
    NumeralsExclude(m, '-');
    SplitTwoFields(NatToString(y), "-", Pad2(m));
  }

  /** Under a selected year and month, a day entry is kept exactly when it
      falls in that month of that year. */
  lemma DayEntryMatchesIff(y: nat, m: nat, d: nat, id: string, content: string, sy: nat, sm: nat)
    requires id == DateString(y, m, d) && m < 100 && sm < 100
    ensures MatchesYearMonth(Entry(id, id, content, Day), NatToString(sy) + "-" + Pad2(sm))
            <==> y == sy && m == sm
  {
    var e := Entry(id, id, content, Day);
    DayEntryYearMonth(e, y, m, d);
    if YearMonthOf(e) == NatToString(sy) + "-" + Pad2(sm) {
      SplitYearMonth(y, m);
      SplitYearMonth(sy, sm);
      NatToStringInjective(y, sy);
      Pad2Exact(m);
      Pad2Exact(sm);
    }
  }

  /** Under a selected year and month, a week entry is kept exactly when
      its week's year is the selected year, whatever the month. */
  lemma WeekEntryMatchesIff(y: nat, w: nat, id: string, content: string, sy: nat, sm: nat)
    requires id == WeekIdString(IsoWeek(y, w))
    ensures MatchesYearMonth(Entry(id, id, content, Week), NatToString(sy) + "-" + Pad2(sm))
            <==> y == sy
  {
    var e := Entry(id, id, content, Week);
    WeekEntryYearMonth(e, y, w);
    SplitYearMonth(sy, sm);
    if NatToString(y) == NatToString(sy) {
      NatToStringInjective(y, sy);
    }
  }

  // ---------------------------------------------------------------------
  // Display
  // ---------------------------------------------------------------------

  /** `Y年M月D日` for a day id and `Y年 第W週` for a week id, the numbers
      after the year read with `parseInt`. */
  function FormatDate(date: string, kind: Kind): string {
    if kind == Day then
      var parts := Split(date, "-");
      PartOr(parts, 0) + "年" + ShowParsedInt(PartOr(parts, 1)) + "月" + ShowParsedInt(PartOr(parts, 2)) + "日"
    else
      var parts := Split(date, "-W");
      PartOr(parts, 0) + "年 第" + ShowParsedInt(PartOr(parts, 1)) + "週"
  }

  /** `parseInt` drops the padding of a two-digit field. */
  lemma ShowPad2(n: nat)
    ensures ShowParsedInt(Pad2(n)) == NatToString(n)
  {
    ParsePadded(n, 2);
  }

  /** A day id displays as its year and unpadded month and day. */
  lemma FormatDayDate(y: nat, m: nat, d: nat)
    ensures FormatDate(DateString(y, m, d), Day)
            == NatToString(y) + "年" + NatToString(m) + "月" + NatToString(d) + "日"
  {
    SplitDateString(y, m, d);
    ShowPad2(m);
    ShowPad2(d);
  }

  /** A week id displays as its year and unpadded week number. */
  lemma FormatWeekDate(y: nat, w: nat)
    ensures FormatDate(WeekIdString(IsoWeek(y, w)), Week) == NatToString(y) + "年 第" + NatToString(w) + "週"
  {
    SplitWeekIdString(y, w);
    ShowPad2(w);
  }

  /** "2026-01-28" shows as 2026年1月28日.

      The two examples below take the date as a parameter pinned by their
      requires, and reach the literals only through small helpers that
      each state one fact (the numerals, the ids, the concatenation).
      Stated directly about the literals, the same facts make the solver
      unfold every numeral and string at once, which exceeds its resource
      budget. */
  lemma FormatDayExample(date: string)
    requires date == "2026-01-28"
    ensures FormatDate(date, Day) == "2026年1月28日"
  {
    var y, m, d, w := 2026, 1, 28, 5;
    ExampleIds(y, m, d, w);
    FormatDayDate(y, m, d);
    Numerals(y, m, d, w);
    DayDisplay(NatToString(y), NatToString(m), NatToString(d));
  }

  /** "2026-W05" shows as 2026年 第5週. */
  lemma FormatWeekExample(date: string)
    requires date == "2026-W05"
    ensures FormatDate(date, Week) == "2026年 第5週"
  {
    var y, m, d, w := 2026, 1, 28, 5;
    ExampleIds(y, m, d, w);
    FormatWeekDate(y, w);
    Numerals(y, m, d, w);
    WeekDisplay(NatToString(y), NatToString(w));
  }

  /** The example's day and week ids as literals. */
  lemma ExampleIds(y: nat, m: nat, d: nat, w: nat)
    requires y == 2026 && m == 1 && d == 28 && w == 5
    ensures DateString(y, m, d) == "2026-01-28"
    ensures WeekIdString(IsoWeek(y, w)) == "2026-W05"
  {
    Numerals(y, m, d, w);
  }

  /** The example's numerals, for fields pinned to their values. */
  lemma Numerals(y: nat, m: nat, d: nat, w: nat)
    requires y == 2026 && m == 1 && d == 28 && w == 5
    ensures NatToString(y) == "2026" && IntToString(y) == "2026"
    ensures NatToString(m) == "1" && NatToString(d) == "28" && NatToString(w) == "5"
    ensures Pad2(m) == "01" && Pad2(d) == "28" && Pad2(w) == "05"
  {
    NumeralLiterals();
  }

  /** The example's numerals as literal facts, kept apart from any other
      string so that the solver builds them digit by digit. */
  lemma NumeralLiterals()
    ensures NatToString(2026) == "2026" && IntToString(2026) == "2026"
    ensures NatToString(1) == "1" && NatToString(28) == "28" && NatToString(5) == "5"
    ensures Pad2(1) == "01" && Pad2(28) == "28" && Pad2(5) == "05"
  {
    OneDigitNumeral(1);
    OneDigitNumeral(5);
    TwoDigitNumeral(28);
    TwoDigitNumeral(20);
    assert NatToString(202) == NatToString(20) + [DigitChar(2)];
    assert NatToString(2026) == NatToString(202) + [DigitChar(6)];
  }

  /** The day display's concatenation over abstract parts. */
  lemma DayDisplay(ys: string, ms: string, ds: string)
    requires ys == "2026" && ms == "1" && ds == "28"
    ensures ys + "年" + ms + "月" + ds + "日" == "2026年1月28日"
  {
  }

  /** The week display's concatenation over abstract parts. */
  lemma WeekDisplay(ys: string, ws: string)
    requires ys == "2026" && ws == "5"
    ensures ys + "年 第" + ws + "週" == "2026年 第5週"
  {
  }

  /** The picker's label: a prompt when nothing is selected, otherwise
      `Y年M月` with the month read by `parseInt`. */
  function FormatYearMonthLabel(ym: string): string {
    if ym == "" then "年月を選択"
    else
      var parts := Split(ym, "-");
      PartOr(parts, 0) + "年" + ShowParsedInt(PartOr(parts, 1)) + "月"
  }

  /** A `YYYY-MM` choice is labelled with its year and unpadded month. */
  lemma YearMonthLabel(y: nat, m: nat)
    ensures FormatYearMonthLabel(NatToString(y) + "-" + Pad2(m)) == NatToString(y) + "年" + NatToString(m) + "月"
    ensures FormatYearMonthLabel("") == "年月を選択"
  {
    SplitYearMonth(y, m);
    ShowPad2(m);
  }
}
