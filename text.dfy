/** The string operations the library relies on: int.ToString() and its inverse, the
    zero-padded numeric fields of a date format, English month names, and ordinal
    string.Contains. */
module Text {
  import opened Ticks

  predicate IsDigit(c: char) {
    '0' <= c <= '9'
  }

  predicate AllDigits(s: string) {
    forall i :: 0 <= i < |s| ==> IsDigit(s[i])
  }

  function DigitChar(d: int): (c: char)
    requires 0 <= d < 10
    ensures IsDigit(c)
  {
    ('0' as int + d) as char
  }

  function DigitValue(c: char): (d: int)
    requires IsDigit(c)
    ensures 0 <= d < 10
  {
    c as int - '0' as int
  }

  lemma DigitValueOfChar(d: int)
    requires 0 <= d < 10
    ensures DigitValue(DigitChar(d)) == d
  {
  }

  /** The number a string of decimal digits denotes (leading zeros allowed). */
  function DigitsValue(s: string): (n: nat)
    requires AllDigits(s)
  {
    if s == [] then 0 else DigitsValue(s[..|s| - 1]) * 10 + DigitValue(s[|s| - 1])
  }

  /** int.ToString() of a non-negative value: the shortest decimal form. */
  function NatToString(n: nat): (s: string)
    ensures |s| >= 1 && AllDigits(s)
    ensures |s| > 1 ==> s[0] != '0'
    decreases n
  {
    if n < 10 then [DigitChar(n)] else NatToString(n / 10) + [DigitChar(n % 10)]
  }

  lemma {:induction false} NatToStringValue(n: nat)
    ensures DigitsValue(NatToString(n)) == n
    decreases n
  {
    var s := NatToString(n);
    if n < 10 {
      DigitValueOfChar(n);
    } else {
      NatToStringValue(n / 10);
      assert s[..|s| - 1] == NatToString(n / 10);
      DigitValueOfChar(n % 10);
    }
  }

  /** int.ToString() with an ASCII minus sign for negative values. */
  function IntToString(n: int): (s: string)
    ensures |s| >= 1
    ensures forall i :: 0 <= i < |s| ==> IsDigit(s[i]) || s[i] == '-'
    ensures (n < 0) == (s[0] == '-')
  {
    if n < 0 then "-" + NatToString(-n) else NatToString(n)
  }

  /** A decimal integer as double.Parse accepts it in this model: an optional minus sign
      followed by one or more digits; anything else is a FormatException. */
  function ParseInteger(s: string): (r: Option<int>)
    ensures s == "" ==> r == None
    ensures r.Some? && s[0] == '-' ==> r.value <= 0
    ensures r.Some? && s[0] != '-' ==> r.value >= 0
  {
    if s == [] then None
    else if s[0] == '-' then
      if |s| > 1 && AllDigits(s[1..]) then Some(0 - DigitsValue(s[1..])) else None
    else if AllDigits(s) then Some(DigitsValue(s))
    else None
  }

  /** Parsing the decimal text of an integer gives the integer back. */
  lemma ParseIntToString(n: int)
    ensures ParseInteger(IntToString(n)) == Some(n)
  {
    if n < 0 {
      NatToStringValue(-n);
      assert IntToString(n)[1..] == NatToString(-n);
    } else {
      NatToStringValue(n);
    }
  }

  function Pow10(k: nat): (p: nat)
    ensures p >= 1
  {
    if k == 0 then 1 else 10 * Pow10(k - 1)
  }

  /** A numeric field rendered with exactly `width` digits, zero-padded on the left, as the
      custom format specifiers "dd", "MM", "HH", "mm", "ss" and "yyyy" render in-range values. */
  function FixedDigits(n: nat, width: nat): (s: string)
    requires n < Pow10(width)
    ensures |s| == width && AllDigits(s) && DigitsValue(s) == n
    decreases width
  {
    if width == 0 then ""
    else
      var s := FixedDigits(n / 10, width - 1) + [DigitChar(n % 10)];
      assert s[..|s| - 1] == FixedDigits(n / 10, width - 1);
      DigitValueOfChar(n % 10);
      s
  }

  /** English month names, as the invariant culture prints "MMMM". */
  function MonthName(month: int): string
    requires 1 <= month <= 12
  {
    match month
    case 1 => "January"
    case 2 => "February"
    case 3 => "March"
    case 4 => "April"
    case 5 => "May"
    case 6 => "June"
    case 7 => "July"
    case 8 => "August"
    case 9 => "September"
    case 10 => "October"
    case 11 => "November"
    case 12 => "December"
  }

  predicate OccursAt(s: string, p: string, i: int) {
    0 <= i <= |s| - |p| && s[i..i + |p|] == p
  }

  /** Ordinal string.Contains: `p` occurs at some position of `s`. */
  predicate Contains(s: string, p: string) {
    exists i :: 0 <= i <= |s| - |p| && OccursAt(s, p, i)
  }

  /** Some character `a` is immediately followed by `b`. */
  predicate HasPair(s: string, a: char, b: char) {
    exists i :: 0 <= i < |s| - 1 && s[i] == a && s[i + 1] == b
  }

  /** A string without the pair formed by the first two characters of `p` does not contain `p`. */
  lemma ContainsHasPair(s: string, p: string)
    requires |p| >= 2 && Contains(s, p)
    ensures HasPair(s, p[0], p[1])
  {
    var i :| 0 <= i <= |s| - |p| && OccursAt(s, p, i);
    assert s[i..i + |p|][0] == s[i] && s[i..i + |p|][1] == s[i + 1];
  }

  /** The pair occurs in a concatenation only inside a part or across the seam. */
  lemma HasPairConcat(a: string, b: string, x: char, y: char)
    requires HasPair(a + b, x, y)
    ensures HasPair(a, x, y) || HasPair(b, x, y) || (|a| > 0 && |b| > 0 && a[|a| - 1] == x && b[0] == y)
  {
    var i :| 0 <= i < |a + b| - 1 && (a + b)[i] == x && (a + b)[i + 1] == y;
    if i + 1 < |a| {
      assert a[i] == x && a[i + 1] == y;
    } else if |a| <= i {
      assert b[i - |a|] == x && b[i - |a| + 1] == y;
    }
  }
}
