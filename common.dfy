/** Shared vocabulary: optional values, the Python string operations the
    program relies on (whitespace, strip, lower, join, `in`), decimal
    rendering of counters and an abstract photo timestamp. */
module Common {

  datatype Option<T> = None | Some(value: T)

  function OrEmpty(o: Option<string>): string
  {
    match o
    case Some(s) => s
    case None => ""
  }

  // ---------------------------------------------------------------------
  // Whitespace, as Python's `\s`, `str.strip()` and `str.isspace()` see it
  // ---------------------------------------------------------------------

  predicate IsSpace(c: char)
  {
    ('\t' <= c <= '\r') || ('\U{1C}' <= c <= '\U{1F}') || c == ' '
    || c == '\U{85}' || c == '\U{A0}' || c == '\U{1680}'
    || ('\U{2000}' <= c <= '\U{200A}') || c == '\U{2028}' || c == '\U{2029}'
    || c == '\U{202F}' || c == '\U{205F}' || c == '\U{3000}'
  }

  predicate NoSpace(s: string)
  {
    forall i :: 0 <= i < |s| ==> !IsSpace(s[i])
  }

  /** `s.lstrip()`: drops the leading whitespace and nothing else. */
  function TrimLeft(s: string): (r: string)
    ensures |r| <= |s| && r == s[|s| - |r|..]
    ensures r != [] ==> !IsSpace(r[0])
  {
    if s != [] && IsSpace(s[0]) then TrimLeft(s[1..]) else s
  }

  /** What `lstrip` drops is whitespace. */
  lemma {:induction false} TrimLeftDropsSpaces(s: string)
    ensures forall i :: 0 <= i < |s| - |TrimLeft(s)| ==> IsSpace(s[i])
  {
    if s != [] && IsSpace(s[0]) {
      TrimLeftDropsSpaces(s[1..]);
    }
  }

  /** `s.rstrip()`: drops the trailing whitespace and nothing else. */
  function TrimRight(s: string): (r: string)
    ensures |r| <= |s| && r == s[..|r|]
    ensures r != [] ==> !IsSpace(r[|r| - 1])
  {
    if s != [] && IsSpace(s[|s| - 1]) then TrimRight(s[..|s| - 1]) else s
  }

  /** What `rstrip` drops is whitespace. */
  lemma {:induction false} TrimRightDropsSpaces(s: string)
    ensures forall i :: |TrimRight(s)| <= i < |s| ==> IsSpace(s[i])
  {
    if s != [] && IsSpace(s[|s| - 1]) {
      TrimRightDropsSpaces(s[..|s| - 1]);
    }
  }

  /** `s.strip()` */
  function Strip(s: string): (r: string)
    ensures r != [] ==> !IsSpace(r[0]) && !IsSpace(r[|r| - 1])
    ensures NoSpace(s) ==> r == s
  {
    TrimRight(TrimLeft(s))
  }

  // ---------------------------------------------------------------------
  // Case, joining, containment
  // ---------------------------------------------------------------------

  /** `str.lower()`, restricted to the ASCII letters. */
  function LowerChar(c: char): char
  {
    if 'A' <= c <= 'Z' then (c as int + 32) as char else c
  }

  function Lower(s: string): (r: string)
    ensures |r| == |s|
    ensures forall i :: 0 <= i < |s| ==> r[i] == LowerChar(s[i])
  {
    if s == [] then [] else [LowerChar(s[0])] + Lower(s[1..])
  }

  /** `sep.join(parts)` */
  function Join(sep: string, parts: seq<string>): string
  {
    if parts == [] then ""
    else if |parts| == 1 then parts[0]
    else parts[0] + sep + Join(sep, parts[1..])
  }

  /** Python's `p in s` for strings: `p` occurs somewhere in `s`. */
  predicate IsInfix(p: string, s: string)
  {
    p <= s || (s != [] && IsInfix(p, s[1..]))
  }

  // ---------------------------------------------------------------------
  // Decimal digits: `str(n)` for the collision counter and timestamp fields
  // ---------------------------------------------------------------------

  predicate IsDigit(c: char)
  {
    '0' <= c <= '9'
  }

  predicate AllDigits(s: string)
  {
    forall i :: 0 <= i < |s| ==> IsDigit(s[i])
  }

  function DigitChar(d: nat): (c: char)
    requires d < 10
    ensures IsDigit(c)
  {
    ('0' as int + d) as char
  }

  /** `str(n)` for a non-negative integer. */
  function NatToString(n: nat): (r: string)
    ensures |r| > 0 && AllDigits(r)
  {
    if n < 10 then [DigitChar(n)] else NatToString(n / 10) + [DigitChar(n % 10)]
  }

  /** The value of a string of decimal digits (inverse of NatToString). */
  function ParseDigits(s: string): nat
    requires AllDigits(s)
  {
    if s == [] then 0
    else ParseDigits(s[..|s| - 1]) * 10 + (s[|s| - 1] as int - '0' as int)
  }

  lemma {:induction false} ParseNatToString(n: nat)
    ensures ParseDigits(NatToString(n)) == n
  {
    var s := NatToString(n);
    if n >= 10 {
      ParseNatToString(n / 10);
      assert s[..|s| - 1] == NatToString(n / 10);
    }
  }

  /** Distinct counters render as distinct strings. */
  lemma NatToStringInjective(a: nat, b: nat)
    requires NatToString(a) == NatToString(b)
    ensures a == b
  {
    ParseNatToString(a);
    ParseNatToString(b);
  }

  /** `n` rendered in decimal, left-padded with zeros to `width` digits. */
  function PadDigits(n: nat, width: nat): (r: string)
    ensures AllDigits(r)
    ensures 0 < width && n < Pow10(width) ==> |r| == width
  {
    var s := NatToString(n);
    NatToStringLength(n, width);
    if |s| >= width then s else Zeros(width - |s|) + s
  }

  function Zeros(k: nat): (r: string)
    ensures |r| == k && AllDigits(r)
  {
    if k == 0 then "" else "0" + Zeros(k - 1)
  }

  function Pow10(k: nat): (p: nat)
    ensures p >= 1
  {
    if k == 0 then 1 else 10 * Pow10(k - 1)
  }

  lemma {:induction false} NatToStringLength(n: nat, width: nat)
    ensures 0 < width && n < Pow10(width) ==> |NatToString(n)| <= width
  {
    if n >= 10 && width > 1 && n < Pow10(width) {
      assert n / 10 < Pow10(width - 1);
      NatToStringLength(n / 10, width - 1);
    }
  }

  // ---------------------------------------------------------------------
  // Photo timestamps (a Python `datetime`, ordered field by field)
  // ---------------------------------------------------------------------

  datatype DateTime = DateTime(year: nat, month: nat, day: nat, hour: nat, minute: nat, second: nat)
  {
    /** `dt.date()` */
    function Date(): (nat, nat, nat)
    {
      (year, month, day)
    }

    /** Component ranges of a `datetime`. The day is bounded by 31 in
        every month: times come from parsing EXIF text, whose own calendar
        check is outside the model, and nothing here depends on the month
        length, only on the order of times and on their date part. */
    predicate Valid()
    {
      1 <= year <= 9999 && 1 <= month <= 12 && 1 <= day <= 31
      && hour < 24 && minute < 60 && second < 60
    }
  }

  /** Python's `a <= b` on datetimes: lexicographic on the components. */
  predicate DateTimeLe(a: DateTime, b: DateTime)
  {
    if a.year != b.year then a.year < b.year
    else if a.month != b.month then a.month < b.month
    else if a.day != b.day then a.day < b.day
    else if a.hour != b.hour then a.hour < b.hour
    else if a.minute != b.minute then a.minute < b.minute
    else a.second <= b.second
  }

  /** `dt.strftime("%Y%m%d_%H%M%S")` */
  function Timestamp(dt: DateTime): (r: string)
  {
    (PadDigits(dt.year, 4) + PadDigits(dt.month, 2) + PadDigits(dt.day, 2)) + "_"
    + (PadDigits(dt.hour, 2) + PadDigits(dt.minute, 2) + PadDigits(dt.second, 2))
  }
}
