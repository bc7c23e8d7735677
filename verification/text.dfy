/** The JavaScript string and number primitives the app relies on, restricted
    to what its own strings contain: `String(n)` for integers, `padStart`,
    `split`, `startsWith`, `includes`, `trim`-blankness, `Number(s)` and
    `parseInt(s)`. Strings are sequences of characters. */
module Text {
  import opened Wrappers

  // ---------------------------------------------------------------------
  // Decimal digits
  // ---------------------------------------------------------------------

  predicate IsDigit(c: char) {
    '0' <= c <= '9'
  }

  predicate AllDigits(s: string) {
    forall i :: 0 <= i < |s| ==> IsDigit(s[i])
  }

  function DigitChar(d: nat): (c: char)
    requires d < 10
    ensures IsDigit(c)
  {
    ('0' as int + d) as char
  }

  function DigitValue(c: char): (d: nat)
    requires IsDigit(c)
    ensures d < 10
  {
    c as int - '0' as int
  }

  /** The number a string of decimal digits denotes; the empty string
      denotes 0 (as `Number("")` does). */
  function DigitsValue(s: string): nat
    requires AllDigits(s)
    decreases |s|
  {
    if s == [] then 0 else DigitsValue(s[..|s| - 1]) * 10 + DigitValue(s[|s| - 1])
  }

  function Pow10(k: nat): (p: nat)
    ensures p >= 1
  {
    if k == 0 then 1 else 10 * Pow10(k - 1)
  }

  /** `String(n)` for a non-negative integer: shortest decimal numeral. */
  function NatToString(n: nat): (r: string)
    ensures 1 <= |r| && AllDigits(r)
    ensures |r| > 1 ==> r[0] != '0'
    decreases n
  {
    if n < 10 then [DigitChar(n)] else NatToString(n / 10) + [DigitChar(n % 10)]
  }

  /** Distinct numbers have distinct numerals. */
  lemma NatToStringInjective(a: nat, b: nat)
    requires NatToString(a) == NatToString(b)
    ensures a == b
  {
    DigitsValueOfNatToString(a);
    DigitsValueOfNatToString(b);
  }

  /** The numerals of one and two digits, spelt out. */
  lemma OneDigitNumeral(n: nat)
    requires n < 10
    ensures NatToString(n) == [DigitChar(n)]
    ensures Pad2(n) == ['0', DigitChar(n)]
  {
  }

  lemma TwoDigitNumeral(n: nat)
    requires 10 <= n < 100
    ensures NatToString(n) == [DigitChar(n / 10), DigitChar(n % 10)]
    ensures Pad2(n) == NatToString(n)
  {
    OneDigitNumeral(n / 10);
  }

  /** `String(n)` for any integer (a leading '-' for negatives). */
  function IntToString(n: int): string {
    if n < 0 then "-" + NatToString(-n) else NatToString(n)
  }

  lemma {:induction false} DigitsValueOfNatToString(n: nat)
    ensures DigitsValue(NatToString(n)) == n
    decreases n
  {
    var s := NatToString(n);
    if n < 10 {
      assert s[..|s| - 1] == [];
    } else {
      assert s[..|s| - 1] == NatToString(n / 10);
      DigitsValueOfNatToString(n / 10);
    }
  }

  /** `String(n)` has at most `k` digits exactly when `n < 10^k`. */
  lemma {:induction false} NatToStringLength(n: nat, k: nat)
    requires k >= 1
    ensures |NatToString(n)| <= k <==> n < Pow10(k)
    decreases n
  {
    if n >= 10 {
      if k == 1 {
        assert |NatToString(n / 10)| >= 1;
        assert Pow10(1) == 10;
      } else {
        NatToStringLength(n / 10, k - 1);
      }
    }
  }

  /** Prefixing zeros does not change the value of a numeral. */
  lemma {:induction false} DigitsValueLeadingZeros(z: string, s: string)
    requires forall i :: 0 <= i < |z| ==> z[i] == '0'
    requires AllDigits(s)
    ensures AllDigits(z + s)
    ensures DigitsValue(z + s) == DigitsValue(s)
    decreases |s|
  {
    if s == [] {
      assert z + s == z;
      AllZerosValue(z);
    } else {
      var t := z + s;
      assert t[..|t| - 1] == z + s[..|s| - 1];
      DigitsValueLeadingZeros(z, s[..|s| - 1]);
    }
  }

  lemma {:induction false} AllZerosValue(z: string)
    requires forall i :: 0 <= i < |z| ==> z[i] == '0'
    ensures AllDigits(z) && DigitsValue(z) == 0
    decreases |z|
  {
    if z != [] {
      AllZerosValue(z[..|z| - 1]);
    }
  }

  // ---------------------------------------------------------------------
  // padStart
  // ---------------------------------------------------------------------

  /** `s.padStart(width, fill)` with a one-character fill: left-pads up to
      `width` and never truncates. */
  function PadStart(s: string, width: nat, fill: char): (r: string)
    ensures |r| == if |s| >= width then |s| else width
    ensures r[|r| - |s|..] == s
    ensures forall i :: 0 <= i < |r| - |s| ==> r[i] == fill
  {
    if |s| >= width then s else seq(width - |s|, _ => fill) + s
  }

  /** `String(Math.floor(n)).padStart(2, "0")` on an integer. */
  function Pad2(n: int): string {
    PadStart(IntToString(n), 2, '0')
  }

  /** `String(Math.floor(n)).padStart(4, "0")` on an integer. */
  function Pad4(n: int): string {
    PadStart(IntToString(n), 4, '0')
  }

  /** A zero-padded numeral of a non-negative integer is all digits and
      denotes that integer, however many digits it has. */
  lemma PaddedValue(n: nat, width: nat)
    ensures AllDigits(PadStart(NatToString(n), width, '0'))
    ensures DigitsValue(PadStart(NatToString(n), width, '0')) == n
  {
    var s := NatToString(n);
    var r := PadStart(s, width, '0');
    var k := |r| - |s|;
    var z := r[..k];
    assert forall i :: 0 <= i < |z| ==> z[i] == '0' by {
      forall i | 0 <= i < |z| ensures z[i] == '0' {
        assert z[i] == r[i];
      }
    }
    assert r[k..] == s;
    assert r == z + r[k..];
    DigitsValueLeadingZeros(z, s);
    DigitsValueOfNatToString(n);
  }

  /** A non-negative integer below `10^width` pads to exactly `width` digits. */
  lemma PaddedLength(n: nat, width: nat)
    requires width >= 1 && n < Pow10(width)
    ensures |PadStart(NatToString(n), width, '0')| == width
  {
    NatToStringLength(n, width);
  }

  /** Two-digit padding of 0..99 is exactly two digits denoting the value. */
  lemma Pad2Exact(n: int)
    ensures 0 <= n < 100 ==> |Pad2(n)| == 2 && AllDigits(Pad2(n)) && DigitsValue(Pad2(n)) == n
  {
    if 0 <= n < 100 {
      assert Pow10(2) == 100;
      PaddedLength(n, 2);
      PaddedValue(n, 2);
    }
  }

  /** Four-digit padding of 0..9999 is exactly four digits denoting the value. */
  lemma Pad4Exact(n: int)
    ensures 0 <= n < 10000 ==> |Pad4(n)| == 4 && AllDigits(Pad4(n)) && DigitsValue(Pad4(n)) == n
  {
    if 0 <= n < 10000 {
      assert Pow10(4) == 10000;
      PaddedLength(n, 4);
      PaddedValue(n, 4);
    }
  }

  // ---------------------------------------------------------------------
  // Number(s) and parseInt(s)
  // ---------------------------------------------------------------------

  /** `Number(s)` on the strings the app produces: a (possibly empty) run of
      decimal digits. Any other string is `NaN` (None). */
  function ParseNumber(s: string): (r: Option<int>)
    ensures r.Some? <==> AllDigits(s)
    ensures r.Some? ==> r.value >= 0
  {
    if AllDigits(s) then Some(DigitsValue(s)) else None
  }

  /** Number of leading decimal digits of `s`. */
  function LeadingDigits(s: string): (k: nat)
    ensures k <= |s|
    ensures forall i :: 0 <= i < k ==> IsDigit(s[i])
    ensures k < |s| ==> !IsDigit(s[k])
    decreases |s|
  {
    if s == [] || !IsDigit(s[0]) then 0 else 1 + LeadingDigits(s[1..])
  }

  /** `parseInt(s, 10)`: the value of the leading run of digits, `NaN` (None)
      when there is none. */
  function ParseInt(s: string): (r: Option<int>)
    ensures r.None? <==> (s == [] || !IsDigit(s[0]))
  {
    var k := LeadingDigits(s);
    if k == 0 then None else Some(DigitsValue(s[..k]))
  }

  /** `parseInt` reads exactly the leading run of digits: a non-empty digit
      prefix that the text does not continue with another digit is the
      number read. */
  lemma ParseIntPrefix(s: string, k: nat)
    requires 0 < k <= |s| && AllDigits(s[..k])
    requires k == |s| || !IsDigit(s[k])
    ensures ParseInt(s) == Some(DigitsValue(s[..k]))
  {
    assert forall i :: 0 <= i < k ==> IsDigit(s[..k][i]);
  }

  /** How `${parseInt(s)}` renders: the number, or "NaN". */
  function ShowParsedInt(s: string): string {
    match ParseInt(s)
    case Some(v) => IntToString(v)
    case None => "NaN"
  }

  /** `Number` and `parseInt` both read a zero-padded numeral back. */
  lemma ParsePadded(n: nat, width: nat)
    ensures ParseNumber(PadStart(NatToString(n), width, '0')) == Some(n)
    ensures ParseInt(PadStart(NatToString(n), width, '0')) == Some(n)
  {
    var s := PadStart(NatToString(n), width, '0');
    PaddedValue(n, width);
    DigitsParse(s);
  }

  /** A non-empty run of digits is read whole by both `Number` and
      `parseInt`. */
  lemma DigitsParse(s: string)
    requires AllDigits(s) && s != []
    ensures ParseNumber(s) == Some(DigitsValue(s))
    ensures ParseInt(s) == Some(DigitsValue(s))
  {
    AllDigitsLeading(s);
    assert s[..|s|] == s;
  }

  /** `Number(String(n)) == n`. */
  lemma NumberOfNatString(n: nat)
    ensures ParseNumber(NatToString(n)) == Some(n)
  {
    ParsePadded(n, 0);
    assert PadStart(NatToString(n), 0, '0') == NatToString(n);
  }

  /** `Number(String(n).padStart(2, "0")) == n`. */
  lemma NumberOfPad2(n: nat)
    ensures ParseNumber(Pad2(n)) == Some(n)
  {
    ParsePadded(n, 2);
  }

  lemma {:induction false} AllDigitsLeading(s: string)
    requires AllDigits(s)
    ensures LeadingDigits(s) == |s|
    decreases |s|
  {
    if s != [] {
      AllDigitsLeading(s[1..]);
    }
  }

  // ---------------------------------------------------------------------
  // split, startsWith, includes
  // ---------------------------------------------------------------------

  predicate StartsWith(s: string, prefix: string) {
    |prefix| <= |s| && s[..|prefix|] == prefix
  }

  /** `s.includes(sub)`. */
  predicate Includes(s: string, sub: string) {
    exists i :: 0 <= i <= |s| && StartsWith(s[i..], sub)
  }

  /** `sep` occurs in `s` at position `j`. */
  predicate OccursAt(s: string, sep: string, j: int) {
    0 <= j && j + |sep| <= |s| && s[j..j + |sep|] == sep
  }

  /** `s.indexOf(sep, from)`: the first occurrence at or after `from`, or -1. */
  function IndexOf(s: string, sep: string, from: nat): (i: int)
    requires |sep| > 0
    ensures i == -1 || (from <= i && OccursAt(s, sep, i))
    ensures forall j :: from <= j && (i == -1 || j < i) ==> !OccursAt(s, sep, j)
    decreases |s| - from
  {
    if from + |sep| > |s| then -1
    else if s[from..from + |sep|] == sep then from
    else IndexOf(s, sep, from + 1)
  }

  /** `s.split(sep)` for a non-empty separator. */
  function Split(s: string, sep: string): (parts: seq<string>)
    requires |sep| > 0
    ensures |parts| >= 1
    decreases |s|
  {
    var i := IndexOf(s, sep, 0);
    if i < 0 then [s] else [s[..i]] + Split(s[i + |sep|..], sep)
  }

  /** Element `i` of a destructured split as a template renders it:
      a missing element is `undefined`. */
  function PartOr(parts: seq<string>, i: nat): string {
    if i < |parts| then parts[i] else "undefined"
  }

  /** `Number(parts[i])`, where a missing element gives `NaN`. */
  function NumberAt(parts: seq<string>, i: nat): Option<int> {
    if i < |parts| then ParseNumber(parts[i]) else None
  }

  lemma {:induction false} IndexOfSkips(a: string, sep: string, b: string, from: nat)
    requires |sep| > 0 && from <= |a|
    requires forall j :: from <= j < |a| ==> a[j] != sep[0]
    ensures IndexOf(a + sep + b, sep, from) == |a|
    decreases |a| - from
  {
    var s := a + sep + b;
    if from < |a| {
      assert s[from] == a[from];
      assert s[from..from + |sep|][0] == s[from];
      IndexOfSkips(a, sep, b, from + 1);
    } else {
      assert s[from..from + |sep|] == sep;
    }
  }

  lemma {:induction false} IndexOfAbsent(s: string, sep: string, from: nat)
    requires |sep| > 0
    requires forall j :: from <= j < |s| ==> s[j] != sep[0]
    ensures IndexOf(s, sep, from) == -1
    decreases |s| - from
  {
    if from + |sep| <= |s| {
      assert s[from..from + |sep|][0] == s[from];
      IndexOfAbsent(s, sep, from + 1);
    }
  }

  /** Splitting at a separator whose first character does not occur in the
      leading field peels that field off. */
  lemma SplitPeel(a: string, sep: string, b: string)
    requires |sep| > 0 && sep[0] !in a
    ensures Split(a + sep + b, sep) == [a] + Split(b, sep)
  {
    var s := a + sep + b;
    assert forall j :: 0 <= j < |a| ==> a[j] != sep[0];
    IndexOfSkips(a, sep, b, 0);
    assert s[..|a|] == a;
    assert s[|a| + |sep|..] == b;
  }

  /** A field in which the separator's first character never occurs is not
      split. */
  lemma SplitWhole(a: string, sep: string)
    requires |sep| > 0 && sep[0] !in a
    ensures Split(a, sep) == [a]
  {
    assert forall j :: 0 <= j < |a| ==> a[j] != sep[0];
    IndexOfAbsent(a, sep, 0);
  }

  /** Splitting three dash-free fields joined by '-' gives them back. */
  lemma SplitThreeFields(a: string, b: string, c: string)
    requires '-' !in a && '-' !in b && '-' !in c
    ensures Split(a + "-" + b + "-" + c, "-") == [a, b, c]
  {
    assert a + "-" + b + "-" + c == a + "-" + (b + "-" + c);
    SplitPeel(a, "-", b + "-" + c);
    SplitPeel(b, "-", c);
    SplitWhole(c, "-");
  }

  /** Splitting two fields joined by a separator whose first character
      occurs in neither gives them back. */
  lemma SplitTwoFields(a: string, sep: string, b: string)
    requires |sep| > 0 && sep[0] !in a && sep[0] !in b
    ensures Split(a + sep + b, sep) == [a, b]
  {
    SplitPeel(a, sep, b);
    SplitWhole(b, sep);
  }

  /** A character other than a digit occurs in no numeral, padded or not. */
  lemma NumeralsExclude(n: nat, x: char)
    requires !IsDigit(x)
    ensures x !in NatToString(n)
    ensures x !in Pad2(n)
  {
    PaddedValue(n, 2);
    DigitsExclude(NatToString(n), x);
    DigitsExclude(Pad2(n), x);
  }

  lemma DigitsExclude(s: string, x: char)
    requires AllDigits(s) && !IsDigit(x)
    ensures x !in s
  {
    forall c | c in s
      ensures c != x
    {
      var j :| 0 <= j < |s| && s[j] == c;
      assert IsDigit(s[j]);
    }
  }

  // ---------------------------------------------------------------------
  // trim() blankness
  // ---------------------------------------------------------------------

  /** The characters `trim` removes: tab, vertical tab, form feed, the
      byte-order mark, the space separators (space, no-break space, ogham
      space mark, U+2000 to U+200A, narrow no-break space, medium
      mathematical space, ideographic space) and the line terminators
      (line feed, carriage return, line and paragraph separators). */
  predicate IsSpace(c: char) {
    || c == '\t' || c == '\U{000B}' || c == '\U{000C}' || c == '\U{FEFF}'
    || c == ' ' || c == '\U{00A0}' || c == '\U{1680}' || '\U{2000}' <= c <= '\U{200A}'
    || c == '\U{202F}' || c == '\U{205F}' || c == '\U{3000}'
    || c == '\n' || c == '\r' || c == '\U{2028}' || c == '\U{2029}'
  }

  /** `s.trim()` is the empty string. */
  predicate Blank(s: string) {
    forall i :: 0 <= i < |s| ==> IsSpace(s[i])
  }
}
