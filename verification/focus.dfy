/** The one-line notes: the identifiers of the day and of the week a note
    belongs to, the single-line normalisation of the note text, and the
    label of each note kind. */
module Focus {
  import opened Wrappers
  import opened Text
  import opened Types
  import opened Calendar

  // ---------------------------------------------------------------------
  // normalizeOneLine
  // ---------------------------------------------------------------------

  /** The longest note kept. */
  const MaxNoteLength: nat := 120

  /** `s.replace(/\r?\n/g, " ")`: every CR LF pair and every lone LF
      becomes one space; a lone CR stays. */
  function ReplaceNewlines(s: string): (r: string)
    ensures '\n' !in r
    ensures |r| <= |s|
    decreases |s|
  {
    if s == [] then []
    else if |s| >= 2 && s[0] == '\r' && s[1] == '\n' then " " + ReplaceNewlines(s[2..])
    else if s[0] == '\n' then " " + ReplaceNewlines(s[1..])
    else [s[0]] + ReplaceNewlines(s[1..])
  }

  /** Occurrences of `c` in `s`. */
  function Count(s: string, c: char): nat
    decreases |s|
  {
    if s == [] then 0 else (if s[0] == c then 1 else 0) + Count(s[1..], c)
  }

  /** Positions of `s` where a CR LF pair starts. */
  function CrLfCount(s: string): nat
    decreases |s|
  {
    if |s| < 2 then 0 else (if s[0] == '\r' && s[1] == '\n' then 1 else 0) + CrLfCount(s[1..])
  }

  /** Each line break turns into exactly one space: the spaces of the
      result are the spaces and LFs of the input, every character other
      than CR, LF and space is kept, and a CR LF pair shrinks by one. */
  lemma ReplaceNewlinesCounts(s: string)
    ensures Count(ReplaceNewlines(s), ' ') == Count(s, ' ') + Count(s, '\n')
    ensures forall c :: c != '\r' && c != '\n' && c != ' ' ==> Count(ReplaceNewlines(s), c) == Count(s, c)
    ensures |ReplaceNewlines(s)| == |s| - CrLfCount(s)
  {
    ReplaceNewlinesSpaces(s);
    forall c | c != '\r' && c != '\n' && c != ' '
      ensures Count(ReplaceNewlines(s), c) == Count(s, c)
    {
      ReplaceNewlinesKeeps(s, c);
    }
    ReplaceNewlinesLength(s);
  }

  lemma {:induction false} ReplaceNewlinesSpaces(s: string)
    ensures Count(ReplaceNewlines(s), ' ') == Count(s, ' ') + Count(s, '\n')
    decreases |s|
  {
    if s == [] {
    } else if |s| >= 2 && s[0] == '\r' && s[1] == '\n' {
      ReplaceNewlinesSpaces(s[2..]);
      assert s[1..][1..] == s[2..];
      assert ReplaceNewlines(s)[1..] == ReplaceNewlines(s[2..]);
    } else {
      ReplaceNewlinesSpaces(s[1..]);
      assert ReplaceNewlines(s)[1..] == ReplaceNewlines(s[1..]);
    }
  }

  lemma {:induction false} ReplaceNewlinesKeeps(s: string, c: char)
    requires c != '\r' && c != '\n' && c != ' '
    ensures Count(ReplaceNewlines(s), c) == Count(s, c)
    decreases |s|
  {
    if s == [] {
    } else if |s| >= 2 && s[0] == '\r' && s[1] == '\n' {
      ReplaceNewlinesKeeps(s[2..], c);
      assert s[1..][1..] == s[2..];
      assert ReplaceNewlines(s)[1..] == ReplaceNewlines(s[2..]);
    } else {
      ReplaceNewlinesKeeps(s[1..], c);
      assert ReplaceNewlines(s)[1..] == ReplaceNewlines(s[1..]);
    }
  }

  lemma {:induction false} ReplaceNewlinesLength(s: string)
    ensures |ReplaceNewlines(s)| == |s| - CrLfCount(s)
    decreases |s|
  {
    if s == [] {
    } else if |s| >= 2 && s[0] == '\r' && s[1] == '\n' {
      ReplaceNewlinesLength(s[2..]);
      assert s[1..][1..] == s[2..];
      assert CrLfCount(s[1..]) == CrLfCount(s[2..]);
    } else {
      ReplaceNewlinesLength(s[1..]);
      CrLfCountTail(s);
    }
  }

  lemma CrLfCountTail(s: string)
    requires s != [] && !(|s| >= 2 && s[0] == '\r' && s[1] == '\n')
    ensures CrLfCount(s) == CrLfCount(s[1..])
  {
  }

  /** Text without a LF is left alone. */
  lemma {:induction false} ReplaceNewlinesIdentity(s: string)
    requires '\n' !in s
    ensures ReplaceNewlines(s) == s
    decreases |s|
  {
    if s != [] {
      assert '\n' !in s[1..] by {
        forall c | c in s[1..] ensures c in s { }
      }
      ReplaceNewlinesIdentity(s[1..]);
    }
  }

  /** The replacement works piece by piece: text can be cut anywhere
      except between the CR and the LF of a pair, and each piece is
      replaced on its own. */
  lemma {:induction false} ReplaceNewlinesAppend(a: string, b: string)
    requires a == [] || b == [] || a[|a| - 1] != '\r' || b[0] != '\n'
    ensures ReplaceNewlines(a + b) == ReplaceNewlines(a) + ReplaceNewlines(b)
    decreases |a|
  {
    if a == [] {
      assert a + b == b;
    } else if |a| >= 2 && a[0] == '\r' && a[1] == '\n' {
      ReplaceNewlinesAppend(a[2..], b);
      AppendPair(a, b);
    } else {
      ReplaceNewlinesAppend(a[1..], b);
      AppendSingle(a, b);
    }
  }

  /** The step of `ReplaceNewlinesAppend` past a leading CR LF pair. */
  lemma AppendPair(a: string, b: string)
    requires |a| >= 2 && a[0] == '\r' && a[1] == '\n'
    requires ReplaceNewlines(a[2..] + b) == ReplaceNewlines(a[2..]) + ReplaceNewlines(b)
    ensures ReplaceNewlines(a + b) == ReplaceNewlines(a) + ReplaceNewlines(b)
  {
    var ab := a + b;
    assert ab[0] == '\r' && ab[1] == '\n';
    assert ab[2..] == a[2..] + b;
    PairStep(a);
    PairStep(ab);
    Glue(" ", ReplaceNewlines(a[2..]), ReplaceNewlines(b), ReplaceNewlines(ab[2..]),
         ReplaceNewlines(a), ReplaceNewlines(ab));
  }

  /** The step of `ReplaceNewlinesAppend` past a leading character that
      does not start a pair. */
  lemma AppendSingle(a: string, b: string)
    requires a != [] && (b == [] || a[|a| - 1] != '\r' || b[0] != '\n')
    requires !(|a| >= 2 && a[0] == '\r' && a[1] == '\n')
    requires ReplaceNewlines(a[1..] + b) == ReplaceNewlines(a[1..]) + ReplaceNewlines(b)
    ensures ReplaceNewlines(a + b) == ReplaceNewlines(a) + ReplaceNewlines(b)
  {
    var ab := a + b;
    NoPairAtStart(a, b);
    SingleStep(a);
    SingleStep(ab);
    Glue(if a[0] == '\n' then " " else [a[0]], ReplaceNewlines(a[1..]), ReplaceNewlines(b),
         ReplaceNewlines(ab[1..]), ReplaceNewlines(a), ReplaceNewlines(ab));
  }

  /** Appending text that does not complete a CR LF pair keeps the first
      character and does not make a pair at the start. */
  lemma NoPairAtStart(a: string, b: string)
    requires a != [] && (b == [] || a[|a| - 1] != '\r' || b[0] != '\n')
    requires !(|a| >= 2 && a[0] == '\r' && a[1] == '\n')
    ensures (a + b)[0] == a[0] && (a + b)[1..] == a[1..] + b
    ensures !(|a + b| >= 2 && (a + b)[0] == '\r' && (a + b)[1] == '\n')
  {
    var ab := a + b;
    if |a| >= 2 {
      assert ab[1] == a[1];
    } else if b != [] {
      assert ab[1] == b[0];
    }
  }

  /** Regrouping a three-part concatenation. */
  lemma Glue(x: string, u: string, v: string, uv: string, xu: string, xuv: string)
    requires uv == u + v && xu == x + u && xuv == x + uv
    ensures xuv == xu + v
  {
  }

  /** The replacement of a leading CR LF pair. */
  lemma PairStep(s: string)
    requires |s| >= 2 && s[0] == '\r' && s[1] == '\n'
    ensures ReplaceNewlines(s) == " " + ReplaceNewlines(s[2..])
  {
  }

  /** The replacement of a leading character that does not start a pair. */
  lemma SingleStep(s: string)
    requires s != [] && !(|s| >= 2 && s[0] == '\r' && s[1] == '\n')
    ensures ReplaceNewlines(s) == (if s[0] == '\n' then " " else [s[0]]) + ReplaceNewlines(s[1..])
  {
  }

  /** The pieces: a CR LF pair and a lone LF each become one space, and
      any other single character stays. */
  lemma ReplaceNewlinesPieces(c: char)
    ensures ReplaceNewlines("\r\n") == " "
    ensures ReplaceNewlines("\n") == " "
    ensures c != '\n' ==> ReplaceNewlines([c]) == [c]
  {
  }

  /** A lone CR stays even right before a CR LF pair, which becomes one
      space: "\r\r\n" turns into "\r ". */
  lemma ReplaceNewlinesLoneCr()
    ensures ReplaceNewlines("\r\r\n") == "\r "
  {
    ReplaceNewlinesAppend("\r", "\r\n");
    ReplaceNewlinesPieces('\r');
    assert "\r" + "\r\n" == "\r\r\n";
  }

  /** Text without CR keeps its length, each LF becomes a space in place,
      and every other character stays where it is. */
  lemma {:induction false} ReplaceNewlinesInPlace(s: string)
    requires '\r' !in s
    ensures |ReplaceNewlines(s)| == |s|
    ensures forall i :: 0 <= i < |s| ==>
              ReplaceNewlines(s)[i] == if s[i] == '\n' then ' ' else s[i]
    decreases |s|
  {
    if s != [] {
      assert '\r' !in s[1..] by {
        forall c | c in s[1..] ensures c in s { }
      }
      ReplaceNewlinesInPlace(s[1..]);
      var r := ReplaceNewlines(s);
      assert r[1..] == ReplaceNewlines(s[1..]);
      forall i | 0 < i < |s|
        ensures r[i] == if s[i] == '\n' then ' ' else s[i]
      {
        assert r[i] == r[1..][i - 1] && s[i] == s[1..][i - 1];
      }
    }
  }

  /** The UTF-16 code units of a character, which JavaScript strings
      count: two for a character outside the Basic Multilingual Plane,
      one for any other. */
  function Utf16Units(c: char): nat {
    if c as int >= 0x1_0000 then 2 else 1
  }

  /** The JavaScript `length` of a string. */
  function Utf16Length(s: string): nat
    decreases |s|
  {
    if s == [] then 0 else Utf16Units(s[0]) + Utf16Length(s[1..])
  }

  /** The longest prefix of `s` that fits in `n` code units, as
      `slice(0, n)` takes it when the cut falls between characters. */
  function TakeUnits(s: string, n: nat): (r: string)
    ensures |r| <= |s| && r == s[..|r|]
    ensures Utf16Length(r) <= n
    ensures |r| < |s| ==> Utf16Length(r) + Utf16Units(s[|r|]) > n
    decreases |s|
  {
    if s == [] || Utf16Units(s[0]) > n then []
    else
      var rest := TakeUnits(s[1..], n - Utf16Units(s[0]));
      assert ([s[0]] + rest)[1..] == rest;
      [s[0]] + rest
  }

  /** A prefix of `s` is at most as long in code units as `s`. */
  lemma {:induction false} PrefixUnits(s: string, k: nat)
    requires k <= |s|
    ensures Utf16Length(s[..k]) <= Utf16Length(s)
    decreases k
  {
    if k > 0 {
      assert s[..k][1..] == s[1..][..k - 1];
      PrefixUnits(s[1..], k - 1);
    }
  }

  /** Text that fits is taken whole. */
  lemma TakeUnitsAll(s: string, n: nat)
    requires Utf16Length(s) <= n
    ensures TakeUnits(s, n) == s
  {
    var r := TakeUnits(s, n);
    if |r| < |s| {
      PrefixUnits(s, |r| + 1);
      PrefixSplitUnits(s, |r|);
      assert false;
    }
  }

  /** Adding the next character adds its code units. */
  lemma {:induction false} PrefixSplitUnits(s: string, k: nat)
    requires k < |s|
    ensures Utf16Length(s[..k + 1]) == Utf16Length(s[..k]) + Utf16Units(s[k])
    decreases k
  {
    if k > 0 {
      assert s[..k + 1][1..] == s[1..][..k];
      assert s[..k][1..] == s[1..][..k - 1];
      PrefixSplitUnits(s[1..], k - 1);
    }
  }

  /** `s.replace(/\r?\n/g, " ").slice(0, 120)`, with the 120 counted in
      UTF-16 code units: the longest prefix of the replaced text that fits
      in 120 units, which is all of it when it fits. */
  function NormalizeOneLine(s: string): (r: string)
    ensures Utf16Length(r) <= MaxNoteLength
    ensures '\n' !in r
    ensures |r| <= |ReplaceNewlines(s)| && r == ReplaceNewlines(s)[..|r|]
    ensures |r| < |ReplaceNewlines(s)| ==>
              Utf16Length(r) + Utf16Units(ReplaceNewlines(s)[|r|]) > MaxNoteLength
  {
    var t := ReplaceNewlines(s);
    var r := TakeUnits(t, MaxNoteLength);
    assert forall c | c in r :: c in t;
    r
  }

  /** A single line of at most 120 code units is kept as it is. */
  lemma NormalizeOneLineKeeps(s: string)
    requires '\n' !in s && Utf16Length(s) <= MaxNoteLength
    ensures NormalizeOneLine(s) == s
  {
    ReplaceNewlinesIdentity(s);
    TakeUnitsAll(s, MaxNoteLength);
  }

  /** Every character of `s` lies in the Basic Multilingual Plane. */
  predicate Bmp(s: string) {
    forall i :: 0 <= i < |s| ==> s[i] as int < 0x1_0000
  }

  /** In text of the Basic Multilingual Plane a code unit is a character,
      so the note keeps its first 120 characters. */
  lemma NormalizeOneLineBmp(s: string)
    requires Bmp(s)
    ensures var t := ReplaceNewlines(s);
            NormalizeOneLine(s) == if |t| <= MaxNoteLength then t else t[..MaxNoteLength]
  {
    ReplaceNewlinesBmp(s);
    var t := ReplaceNewlines(s);
    var r := NormalizeOneLine(s);
    if |t| <= MaxNoteLength {
      BmpUnits(t);
      TakeUnitsAll(t, MaxNoteLength);
    } else {
      BmpPrefix(t, |r|);
      BmpUnits(r);
      assert Utf16Units(t[|r|]) == 1;
    }
  }

  /** A prefix of a Basic Multilingual Plane string stays in that plane. */
  lemma BmpPrefix(s: string, k: nat)
    requires Bmp(s) && k <= |s|
    ensures Bmp(s[..k])
  {
    forall i | 0 <= i < k ensures s[..k][i] as int < 0x1_0000 {
      assert s[..k][i] == s[i];
    }
  }

  /** Replacing line breaks brings in only spaces. */
  lemma {:induction false} ReplaceNewlinesBmp(s: string)
    requires Bmp(s)
    ensures Bmp(ReplaceNewlines(s))
    decreases |s|
  {
    if s == [] {
    } else if |s| >= 2 && s[0] == '\r' && s[1] == '\n' {
      assert Bmp(s[2..]) by {
        forall i | 0 <= i < |s| - 2 ensures s[2..][i] as int < 0x1_0000 {
          assert s[2..][i] == s[i + 2];
        }
      }
      ReplaceNewlinesBmp(s[2..]);
      var u := ReplaceNewlines(s[2..]);
      assert ReplaceNewlines(s) == " " + u;
      assert forall i :: 0 < i <= |u| ==> (" " + u)[i] == u[i - 1];
    } else {
      assert Bmp(s[1..]) by {
        forall i | 0 <= i < |s| - 1 ensures s[1..][i] as int < 0x1_0000 {
          assert s[1..][i] == s[i + 1];
        }
      }
      ReplaceNewlinesBmp(s[1..]);
      var u := ReplaceNewlines(s[1..]);
      var x := if s[0] == '\n' then ' ' else s[0];
      assert ReplaceNewlines(s) == [x] + u;
      assert forall i :: 0 < i <= |u| ==> ([x] + u)[i] == u[i - 1];
    }
  }

  /** A string of the Basic Multilingual Plane is as long in code units
      as in characters. */
  lemma {:induction false} BmpUnits(s: string)
    requires Bmp(s)
    ensures Utf16Length(s) == |s|
    decreases |s|
  {
    if s != [] {
      assert Bmp(s[1..]) by {
        forall i | 0 <= i < |s| - 1 ensures s[1..][i] as int < 0x1_0000 {
          assert s[1..][i] == s[i + 1];
        }
      }
      BmpUnits(s[1..]);
    }
  }

  /** Characters outside the Basic Multilingual Plane take two code units
      each, so a line of them keeps only its first 60: sixty-one emoji
      lose the last one. */
  lemma NormalizeOneLineAstral(s: string)
    requires |s| >= 60
    requires forall i :: 0 <= i < |s| ==> s[i] as int >= 0x1_0000
    ensures NormalizeOneLine(s) == s[..60]
  {
    ReplaceNewlinesIdentity(s);
    var r := NormalizeOneLine(s);
    AstralUnits(r);
  }

  /** A string outside the Basic Multilingual Plane is twice as long in
      code units as in characters. */
  lemma {:induction false} AstralUnits(s: string)
    requires forall i :: 0 <= i < |s| ==> s[i] as int >= 0x1_0000
    ensures Utf16Length(s) == 2 * |s|
    decreases |s|
  {
    if s != [] {
      AstralUnits(s[1..]);
    }
  }

  /** Normalising twice is normalising once. */
  lemma NormalizeOneLineIdempotent(s: string)
    ensures NormalizeOneLine(NormalizeOneLine(s)) == NormalizeOneLine(s)
  {
    NormalizeOneLineKeeps(NormalizeOneLine(s));
  }

  // ---------------------------------------------------------------------
  // Day and week identifiers
  // ---------------------------------------------------------------------

  /** The day identifier `Y-MM-DD` of a local calendar date. */
  function GetDayId(y: int, m: int, d: int): string {
    DateString(y, m, d)
  }

  /** The day identifier consists of the unpadded year and the month and
      day padded to exactly two digits, and it reads back as the date. */
  lemma GetDayIdFields(y: int, m: int, d: int)
    requires ValidDate(y, m, d) && y >= 0
    ensures Split(GetDayId(y, m, d), "-") == [NatToString(y), Pad2(m), Pad2(d)]
    ensures |Pad2(m)| == 2 && |Pad2(d)| == 2
    ensures ParseDateString(GetDayId(y, m, d)) == DateFields(Some(y), Some(m), Some(d))
  {
    assert 1 <= m < 100 && 1 <= d < 100;
    var ny: nat, nm: nat, nd: nat := y, m, d;
    assert GetDayId(y, m, d) == DateString(ny, nm, nd);
    SplitDateString(ny, nm, nd);
    Pad2Exact(nm);
    Pad2Exact(nd);
    DateStringRoundTrip(ny, nm, nd);
  }

  /** The Thursday of the Monday-to-Sunday week of day `n`. */
  function Thursday(n: int): (t: int)
    ensures n - 3 <= t <= n + 3
    ensures IsoWeekday(t) == 4
  {
    n + 4 - IsoWeekday(n)
  }

  /** The Monday that starts the week of day `n`. */
  function Monday(n: int): int {
    n - (IsoWeekday(n) - 1)
  }

  /** The year of day `t`, known to lie within a few days of year `y`. */
  function NearYear(y: int, t: int): int {
    if t < DaysBeforeYear(y) then y - 1
    else if t >= DaysBeforeYear(y + 1) then y + 1
    else y
  }

  /** `Math.ceil(a / b)` for a positive divisor. */
  function CeilDiv(a: int, b: int): int
    requires b > 0
  {
    -((-a) / b)
  }

  /** The number of the week holding Thursday `t` of year `ty`: the weeks
      counted from that year's first Thursday. */
  function WeekNumber(t: int, ty: int): int {
    CeilDiv(t - DaysBeforeYear(ty) + 1, 7)
  }

  /** A week of the ISO 8601 week calendar. */
  datatype IsoWeek = IsoWeek(year: int, week: int)

  /** The Thursday of a date's week lies in the date's year, in the year
      before only for January 1-3, and in the year after only for
      December 29-31. */
  lemma ThursdayYear(y: int, m: int, d: int)
    requires ValidDate(y, m, d)
    ensures var t := Thursday(DayNumber(y, m, d));
            && InYear(t, NearYear(y, t))
            && (NearYear(y, t) == y - 1 ==> m == 1 && d <= 3)
            && (NearYear(y, t) == y + 1 ==> m == 12 && d >= 29)
  {
    var n := DayNumber(y, m, d);
    var t := Thursday(n);
    var p, a, b := y - 1, y, y + 1;
    DayNumberInYear(y, m, d);
    YearLength(p);
    YearLength(a);
    YearLength(b);
    assert p + 1 == a && a + 1 == b;
    var s, e := DaysBeforeYear(a), DaysBeforeYear(b);
    NearWindow(t, n, DaysBeforeYear(p), s, e, DaysBeforeYear(b + 1));
    assert n - s == DaysBeforeMonth(y, m) + d - 1;
    if t < s {
      EarlyInYear(y, m, d);
      assert NearYear(y, t) == p;
    } else if t >= e {
      LateInYear(y, m, d);
      assert NearYear(y, t) == b;
    } else {
      assert NearYear(y, t) == a;
    }
  }

  /** A day within three days of day `n` of the year from `s` to `e` lies
      in that year or in one of its neighbours, and leaves it only near
      the year's ends. */
  lemma NearWindow(t: int, n: int, p: int, s: int, e: int, q: int)
    requires s - p >= 365 && e - s >= 365 && q - e >= 365
    requires s <= n < e && n - 3 <= t <= n + 3
    ensures t < s ==> p <= t && n - s < 3
    ensures t >= e ==> t < q && n - s >= (e - s) - 3
  {
  }

  /** Only January 1-3 lie within three days of the year's start. */
  lemma EarlyInYear(y: int, m: int, d: int)
    requires ValidDate(y, m, d) && DaysBeforeMonth(y, m) + d - 1 < 3
    ensures m == 1 && d <= 3
  {
  }

  /** Only December 29-31 lie within three days of the year's end. */
  lemma LateInYear(y: int, m: int, d: int)
    requires ValidDate(y, m, d) && DaysBeforeMonth(y, m) + d - 1 >= YearDays(y) - 3
    ensures m == 12 && d >= 29
  {
  }

  /** A day of a year is in week 1 to 53 of it. */
  lemma WeekNumberRange(k: int)
    requires 0 <= k < 366
    ensures 1 <= CeilDiv(k + 1, 7) <= 53
  {
  }

  /** The week of a date, per the Thursday rule of ISO 8601 (section
      4.1.4): shift the date to the Thursday of its Monday-to-Sunday week;
      the week's year is that Thursday's year and its number counts the
      weeks from that year's first Thursday. */
  function WeekOf(y: int, m: int, d: int): (w: IsoWeek)
    requires ValidDate(y, m, d)
    ensures InYear(Thursday(DayNumber(y, m, d)), w.year)
    ensures 1 <= w.week <= 53
    ensures w.week == WeekNumber(Thursday(DayNumber(y, m, d)), w.year)
    ensures w.year == y - 1 ==> m == 1 && d <= 3
    ensures w.year == y + 1 ==> m == 12 && d >= 29
    ensures y - 1 <= w.year <= y + 1
  {
    var t := Thursday(DayNumber(y, m, d));
    var ty := NearYear(y, t);
    ThursdayYear(y, m, d);
    YearLength(ty);
    WeekNumberRange(t - DaysBeforeYear(ty));
    IsoWeek(ty, WeekNumber(t, ty))
  }

  /** `YYYY-Www`: the week's year, then the week number padded to two
      digits. */
  function WeekIdString(w: IsoWeek): string {
    IntToString(w.year) + "-W" + Pad2(w.week)
  }

  function GetWeekId(y: int, m: int, d: int): string
    requires ValidDate(y, m, d)
  {
    WeekIdString(WeekOf(y, m, d))
  }

  /** The week id splits at "-W" into the week's year and a week number of
      exactly two digits that reads back as the number. */
  lemma GetWeekIdFields(y: int, m: int, d: int)
    requires ValidDate(y, m, d) && y >= 1
    ensures var w := WeekOf(y, m, d);
            && w.year >= 0
            && Split(GetWeekId(y, m, d), "-W") == [NatToString(w.year), Pad2(w.week)]
            && |Pad2(w.week)| == 2 && ParseNumber(Pad2(w.week)) == Some(w.week)
  {
    var w := WeekOf(y, m, d);
    Pad2Exact(w.week);
    NumberOfPad2(w.week);
    SplitWeekIdString(w.year, w.week);
  }

  lemma SplitWeekIdString(year: nat, week: nat)
    ensures Split(WeekIdString(IsoWeek(year, week)), "-W") == [NatToString(year), Pad2(week)]
  {
    var a, b := NatToString(year), Pad2(week);
    assert WeekIdString(IsoWeek(year, week)) == a + "-W" + b;
    NumeralsExclude(year, '-');
    NumeralsExclude(week, '-');
    SplitTwoFields(a, "-W", b);
  }

  /** Two dates in the same Monday-to-Sunday week share their week id. */
  lemma SameWeekSameId(y1: int, m1: int, d1: int, y2: int, m2: int, d2: int)
    requires ValidDate(y1, m1, d1) && ValidDate(y2, m2, d2)
    requires Monday(DayNumber(y1, m1, d1)) == Monday(DayNumber(y2, m2, d2))
    ensures WeekOf(y1, m1, d1) == WeekOf(y2, m2, d2)
    ensures GetWeekId(y1, m1, d1) == GetWeekId(y2, m2, d2)
  {
    var n1, n2 := DayNumber(y1, m1, d1), DayNumber(y2, m2, d2);
    var w1, w2 := WeekOf(y1, m1, d1), WeekOf(y2, m2, d2);
    ThursdayAfterMonday(n1);
    ThursdayAfterMonday(n2);
    SameThursdaySameWeek(w1, w2, Thursday(n1));
  }

  /** The week of a Thursday is determined by the Thursday alone. */
  lemma SameThursdaySameWeek(w1: IsoWeek, w2: IsoWeek, t: int)
    requires InYear(t, w1.year) && InYear(t, w2.year)
    requires w1.week == WeekNumber(t, w1.year) && w2.week == WeekNumber(t, w2.year)
    ensures w1 == w2
  {
    YearOfDayUnique(t, w1.year, w2.year);
  }

  /** The Thursday of a week is three days after its Monday. */
  lemma ThursdayAfterMonday(n: int)
    ensures Thursday(n) == Monday(n) + 3
  {
  }

  /** The seven days from a Monday on all start at that Monday. */
  lemma WeekStartsAtMonday(mon: int, k: int)
    requires IsoWeekday(mon) == 1 && 0 <= k < 7
    ensures Monday(mon + k) == mon
  {
    assert UtcDay(mon) == 1;
    assert UtcDay(mon + k) == (k + 1) % 7;
  }

  /** Every date from a Monday to the following Sunday has that Monday's
      week id. */
  lemma MondayToSundayOneId(y1: int, m1: int, d1: int, y2: int, m2: int, d2: int)
    requires ValidDate(y1, m1, d1) && ValidDate(y2, m2, d2)
    requires IsoWeekday(DayNumber(y1, m1, d1)) == 1
    requires DayNumber(y1, m1, d1) <= DayNumber(y2, m2, d2) <= DayNumber(y1, m1, d1) + 6
    ensures GetWeekId(y1, m1, d1) == GetWeekId(y2, m2, d2)
  {
    var n1, n2 := DayNumber(y1, m1, d1), DayNumber(y2, m2, d2);
    WeekStartsAtMonday(n1, 0);
    WeekStartsAtMonday(n1, n2 - n1);
    SameWeekSameId(y1, m1, d1, y2, m2, d2);
  }

  /** January 4 always lies in week 1 of its own year (the week holding
      the year's first Thursday). */
  lemma JanuaryFourthIsWeekOne(y: int)
    ensures WeekOf(y, 1, 4) == IsoWeek(y, 1)
  {
    YearLength(y);
  }

  /** December 28 always lies in the last week (52 or 53) of its own year. */
  lemma DecemberTwentyEighthIsLastWeek(y: int)
    ensures WeekOf(y, 12, 28).year == y
    ensures WeekOf(y, 12, 28).week >= 52
  {
    YearLength(y);
  }

  // ---------------------------------------------------------------------
  // Labels
  // ---------------------------------------------------------------------

  function GetLabel(mode: FocusMode): string {
    if mode == Today then "今日の1行メモ" else "今週の1行メモ"
  }

  /** The two note kinds are labelled apart: "today's" versus "this
      week's" one-line note. */
  lemma LabelsDiffer()
    ensures GetLabel(Today) != GetLabel(Week)
    ensures GetLabel(Today)[1] == '日' && GetLabel(Week)[1] == '週'
  {
  }
}
