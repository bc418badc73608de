/**
 * Decimal text of numbers, as a JavaScript template literal `${n}` renders an
 * integer, and the reading of a run of decimal digits back into a number.
 */
module Decimal {
  import opened Options

  predicate IsDigit(c: char) {
    '0' <= c <= '9'
  }

  predicate AllDigits(s: string) {
    forall k :: 0 <= k < |s| ==> IsDigit(s[k])
  }

  function DigitChar(d: nat): (c: char)
    requires d < 10
    ensures IsDigit(c) && c as int - '0' as int == d
  {
    ('0' as int + d) as char
  }

  /** The shortest decimal text of `n`: at least one digit, no leading zero. */
  function NatToText(n: nat): (s: string)
    ensures |s| >= 1 && AllDigits(s)
    ensures |s| > 1 ==> s[0] != '0'
  {
    if n < 10 then [DigitChar(n)] else NatToText(n / 10) + [DigitChar(n % 10)]
  }

  /** The decimal text of an integer, with a leading minus sign when it is negative. */
  function IntToText(i: int): (s: string)
    ensures |s| >= 1
    ensures i >= 0 <==> IsDigit(s[0])
  {
    if i < 0 then "-" + NatToText(-i) else NatToText(i)
  }

  /** The number a run of decimal digits stands for (0 for the empty run). */
  function DigitsValue(s: string): nat
    requires AllDigits(s)
  {
    if s == [] then 0
    else DigitsValue(s[..|s| - 1]) * 10 + (s[|s| - 1] as int - '0' as int)
  }

  /** Reading the decimal text of a number gives the number back. */
  lemma {:induction false} NatToTextRoundTrip(n: nat)
    ensures DigitsValue(NatToText(n)) == n
  {
    if n >= 10 {
      var s := NatToText(n);
      assert s[..|s| - 1] == NatToText(n / 10);
      NatToTextRoundTrip(n / 10);
    }
  }

  /** The longest prefix of `s` made of digits. */
  function LeadingDigits(s: string): (r: string)
    ensures |r| <= |s| && r == s[..|r|] && AllDigits(r)
    ensures |r| < |s| ==> !IsDigit(s[|r|])
  {
    if s != [] && IsDigit(s[0]) then [s[0]] + LeadingDigits(s[1..]) else []
  }

  /** A run of digits followed by a non-digit (or nothing) is exactly the leading-digit prefix. */
  lemma LeadingDigitsOfRun(ds: string, rest: string)
    requires AllDigits(ds)
    requires rest == [] || !IsDigit(rest[0])
    ensures LeadingDigits(ds + rest) == ds
  {
    assert (ds + rest)[..|ds|] == ds;
  }

  /** The number written at the front of `s` and the text after it; None when `s` does not start with a digit. */
  function ReadNat(s: string): Option<(nat, string)> {
    var ds := LeadingDigits(s);
    if ds == [] then None else Some((DigitsValue(ds), s[|ds|..]))
  }

  /** Like ReadNat, but a leading minus sign makes the number negative. */
  function ReadInt(s: string): Option<(int, string)> {
    if |s| > 0 && s[0] == '-' then
      match ReadNat(s[1..])
      case None => None
      case Some((n, rest)) => Some((-(n as int), rest))
    else
      match ReadNat(s)
      case None => None
      case Some((n, rest)) => Some((n as int, rest))
  }

  /** Reading the decimal text of `n` back, with any text after it that does not start with a digit, gives `n` and that text. */
  lemma ReadNatRoundTrip(n: nat, rest: string)
    requires rest == [] || !IsDigit(rest[0])
    ensures ReadNat(NatToText(n) + rest) == Some((n, rest))
  {
    var ds := NatToText(n);
    LeadingDigitsOfRun(ds, rest);
    NatToTextRoundTrip(n);
    assert (ds + rest)[|ds|..] == rest;
  }

  /** A minus sign in front of a number makes ReadInt give its negation. */
  lemma ReadIntOfMinus(t: string, n: nat, rest: string)
    requires ReadNat(t) == Some((n, rest))
    ensures ReadInt(['-'] + t) == Some((-(n as int), rest))
  {
    var s := ['-'] + t;
    assert s[0] == '-' && s[1..] == t;
  }

  /** Reading the decimal text of an integer back, with any text after it that does not start with a digit, gives the integer and that text. */
  lemma ReadIntRoundTrip(i: int, rest: string)
    requires rest == [] || !IsDigit(rest[0])
    ensures ReadInt(IntToText(i) + rest) == Some((i, rest))
  {
    if i < 0 {
      var t := NatToText(-i) + rest;
      assert IntToText(i) + rest == ['-'] + t;
      ReadNatRoundTrip(-i, rest);
      ReadIntOfMinus(t, -i, rest);
    } else {
      var t := NatToText(i) + rest;
      assert IntToText(i) + rest == t && IsDigit(t[0]);
      ReadNatRoundTrip(i, rest);
    }
  }
}
