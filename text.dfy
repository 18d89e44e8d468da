/**
 * The two conversions between integers and text that the handlers rely on:
 * JavaScript's `parseInt` (used on durations) and the decimal rendering of
 * an integer inside a template string (used in duration labels).
 */
module Text {
  import opened Wrappers

  predicate IsDigit(c: char) {
    '0' <= c <= '9'
  }

  /** The white space `parseInt` skips before the number (ASCII part). */
  predicate IsSpace(c: char) {
    c == ' ' || c == '\t' || c == '\n' || c == '\r' || c as int == 11 || c as int == 12
  }

  predicate AllDigits(s: string) {
    forall i :: 0 <= i < |s| ==> IsDigit(s[i])
  }

  function DigitValue(c: char): (d: nat)
    requires IsDigit(c)
    ensures d < 10
  {
    c as int - '0' as int
  }

  function Digit(d: nat): (c: char)
    requires d < 10
    ensures IsDigit(c) && DigitValue(c) == d
  {
    ('0' as int + d) as char
  }

  /** The decimal numeral of n, without leading zeros. */
  function NatToDecimal(n: nat): (s: string)
    ensures |s| > 0 && AllDigits(s)
  {
    if n < 10 then [Digit(n)] else NatToDecimal(n / 10) + [Digit(n % 10)]
  }

  /** How `${i}` renders an integer whose magnitude is below 1e21 (from 1e21 on JavaScript switches to exponent form). */
  function IntToDecimal(i: int): (s: string)
    ensures |s| > 0 && forall k :: 0 <= k < |s| ==> IsDigit(s[k]) || s[k] == '-'
  {
    if i < 0 then "-" + NatToDecimal(-i) else NatToDecimal(i)
  }

  /** The value of a numeral, most significant digit first. */
  function DigitsValue(s: string): (v: nat)
    requires AllDigits(s)
  {
    if s == [] then 0 else DigitsValue(s[..|s| - 1]) * 10 + DigitValue(s[|s| - 1])
  }

  /** The longest prefix of s made of decimal digits. */
  function LeadingDigits(s: string): (d: string)
    ensures d <= s && AllDigits(d)
    ensures |d| < |s| ==> !IsDigit(s[|d|])
  {
    if s == [] || !IsDigit(s[0]) then [] else [s[0]] + LeadingDigits(s[1..])
  }

  /** s without its leading white space. */
  function SkipSpaces(s: string): (t: string)
    ensures |t| <= |s| && t == s[|s| - |t|..]
    ensures t == [] || !IsSpace(t[0])
  {
    if s != [] && IsSpace(s[0]) then SkipSpaces(s[1..]) else s
  }

  /**
   * `parseInt(s)` in base 10: leading white space, an optional sign, and
   * the longest run of digits that follows; None stands for NaN.
   */
  function ParseInt(s: string): (r: Option<int>) {
    ParseSigned(SkipSpaces(s))
  }

  /** The number at the very start of t: an optional sign, then digits. */
  function ParseSigned(t: string): (r: Option<int>) {
    var digits := LeadingDigits(Unsigned(t));
    if digits == [] then None
    else if |t| > 0 && t[0] == '-' then Some(-(DigitsValue(digits) as int))
    else Some(DigitsValue(digits))
  }

  /** t without its sign character, if it has one. */
  function Unsigned(t: string): (u: string) {
    if |t| > 0 && (t[0] == '-' || t[0] == '+') then t[1..] else t
  }

  lemma {:induction false} DigitsValueOfDecimal(n: nat)
    ensures DigitsValue(NatToDecimal(n)) == n
  {
    var s := NatToDecimal(n);
    if n < 10 {
      assert s[..|s| - 1] == [];
    } else {
      assert s[..|s| - 1] == NatToDecimal(n / 10);
      DigitsValueOfDecimal(n / 10);
    }
  }

  lemma {:induction false} LeadingDigitsOfNumeral(d: string, rest: string)
    requires AllDigits(d)
    requires rest == [] || !IsDigit(rest[0])
    ensures LeadingDigits(d + rest) == d
  {
    if d == [] {
      assert d + rest == rest;
    } else {
      assert (d + rest)[1..] == d[1..] + rest;
      LeadingDigitsOfNumeral(d[1..], rest);
      assert d == [d[0]] + d[1..];
    }
  }

  /**
   * Round trip: `parseInt` reads back the integer that `${i}` rendered,
   * whatever non-digit text follows it.
   */
  lemma {:induction false} ParseIntOfDecimal(i: int, rest: string)
    requires rest == [] || !IsDigit(rest[0])
    ensures ParseInt(IntToDecimal(i) + rest) == Some(i)
  {
    if i < 0 {
      var n := NatToDecimal(-i);
      assert IntToDecimal(i) + rest == "-" + n + rest;
      ParseNegative(n, rest);
      DigitsValueOfDecimal(-i);
      assert -(DigitsValue(n) as int) == i;
    } else {
      var n := NatToDecimal(i);
      assert IntToDecimal(i) + rest == n + rest;
      ParseNonNegative(n, rest);
      DigitsValueOfDecimal(i);
      assert DigitsValue(n) == i;
    }
  }

  /**
   * What `parseInt` reads from white space, an optional sign, a run of
   * digits (leading zeros allowed) and any text not starting with a digit:
   * the value of the digits, negated exactly when the sign is '-'.
   */
  lemma {:induction false} ParseIntOfNumeral(ws: string, sign: string, d: string, rest: string)
    requires forall k :: 0 <= k < |ws| ==> IsSpace(ws[k])
    requires sign == "" || sign == "+" || sign == "-"
    requires |d| > 0 && AllDigits(d)
    requires rest == [] || !IsDigit(rest[0])
    ensures ParseInt(ws + sign + d + rest)
              == Some(if sign == "-" then -(DigitsValue(d) as int) else DigitsValue(d))
  {
    var t := sign + d + rest;
    assert ws + sign + d + rest == ws + t;
    assert t[0] == if sign == "" then d[0] else sign[0];
    ParseAfterSpaces(ws, t);
    if sign == "" {
      assert sign + d == d;
      ParseNonNegative(d, rest);
    } else if sign == "-" {
      ParseNegative(d, rest);
    } else {
      ParsePositive(d, rest);
    }
  }

  /**
   * `parseInt` gives NaN when, after the white space and an optional sign,
   * the text does not start with a digit (nothing at all included). After
   * a sign, a second sign or white space is such text too.
   */
  lemma {:induction false} ParseIntNaN(ws: string, sign: string, rest: string)
    requires forall k :: 0 <= k < |ws| ==> IsSpace(ws[k])
    requires sign == "" || sign == "+" || sign == "-"
    requires rest == [] || !(IsDigit(rest[0]) || (sign == "" && (IsSpace(rest[0]) || rest[0] == '+' || rest[0] == '-')))
    ensures ParseInt(ws + sign + rest) == None
  {
    var t := sign + rest;
    assert ws + sign + rest == ws + t;
    if sign != "" {
      assert t[0] == sign[0];
    }
    ParseAfterSpaces(ws, t);
    assert SkipSpaces(t) == t;
    if sign == "" {
      assert t == rest;
    } else {
      assert t[1..] == rest;
    }
    assert Unsigned(t) == rest;
  }

  /** `parseInt` ignores white space in front of text that does not start with white space. */
  lemma {:induction false} ParseAfterSpaces(ws: string, t: string)
    requires forall k :: 0 <= k < |ws| ==> IsSpace(ws[k])
    requires t == [] || !IsSpace(t[0])
    ensures ParseInt(ws + t) == ParseInt(t)
  {
    SkipLeadingSpaces(ws, t);
    assert SkipSpaces(t) == t;
  }

  /** White space in front of text that does not start with white space is skipped. */
  lemma {:induction false} SkipLeadingSpaces(ws: string, t: string)
    requires forall k :: 0 <= k < |ws| ==> IsSpace(ws[k])
    requires t == [] || !IsSpace(t[0])
    ensures SkipSpaces(ws + t) == t
  {
    if ws == [] {
      assert ws + t == t;
    } else {
      assert (ws + t)[0] == ws[0];
      assert (ws + t)[1..] == ws[1..] + t;
      SkipLeadingSpaces(ws[1..], t);
    }
  }

  lemma {:induction false} ParseNonNegative(n: string, rest: string)
    requires |n| > 0 && AllDigits(n)
    requires rest == [] || !IsDigit(rest[0])
    ensures ParseInt(n + rest) == Some(DigitsValue(n))
  {
    var s := n + rest;
    assert s[0] == n[0] && IsDigit(s[0]);
    assert SkipSpaces(s) == s;
    assert Unsigned(s) == s;
    LeadingDigitsOfNumeral(n, rest);
    assert ParseSigned(s) == Some(DigitsValue(n));
  }

  lemma {:induction false} ParsePositive(n: string, rest: string)
    requires |n| > 0 && AllDigits(n)
    requires rest == [] || !IsDigit(rest[0])
    ensures ParseInt("+" + n + rest) == Some(DigitsValue(n))
  {
    var s := "+" + n + rest;
    assert s[0] == '+' && s[1..] == n + rest;
    assert SkipSpaces(s) == s;
    LeadingDigitsOfNumeral(n, rest);
    assert LeadingDigits(Unsigned(s)) == n;
  }

  lemma {:induction false} ParseNegative(n: string, rest: string)
    requires |n| > 0 && AllDigits(n)
    requires rest == [] || !IsDigit(rest[0])
    ensures ParseInt("-" + n + rest) == Some(-(DigitsValue(n) as int))
  {
    var s := "-" + n + rest;
    assert s[0] == '-' && s[1..] == n + rest;
    assert SkipSpaces(s) == s;
    LeadingDigitsOfNumeral(n, rest);
    assert LeadingDigits(Unsigned(s)) == n;
  }
}
