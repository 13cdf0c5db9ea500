/**
 * Decimal rendering of integers, as Java's string concatenation `"" + i`
 * (that is, `Integer.toString`) produces it, together with a parser that
 * inverts it. The parser is the partner that shows the rendering loses
 * no information.
 */
module Decimal {

  predicate IsDigit(ch: char) {
    '0' <= ch <= '9'
  }

  function DigitChar(d: int): (ch: char)
    requires 0 <= d < 10
    ensures IsDigit(ch)
  {
    ('0' as int + d) as char
  }

  function DigitValue(ch: char): (d: int)
    requires IsDigit(ch)
    ensures 0 <= d < 10
  {
    ch as int - '0' as int
  }

  lemma DigitRoundTrip(d: int)
    requires 0 <= d < 10
    ensures DigitValue(DigitChar(d)) == d
  {
  }

  /** The shortest decimal digit string of `n`, most significant digit first. */
  function NatToString(n: nat): (s: string)
    ensures IsNatText(s)
    ensures s[0] == '0' <==> n == 0
    decreases n
  {
    if n < 10 then [DigitChar(n)] else NatToString(n / 10) + [DigitChar(n % 10)]
  }

  /** Digits only, with no leading zero unless the number is zero itself. */
  predicate IsNatText(s: string) {
    |s| > 0 && (forall i :: 0 <= i < |s| ==> IsDigit(s[i])) && (s[0] == '0' ==> |s| == 1)
  }

  /** The text Java produces for an `int`: canonical digits, after a minus sign when negative (never "-0"). */
  predicate IsCanonicalIntText(s: string) {
    IsNatText(s) || (|s| > 1 && s[0] == '-' && IsNatText(s[1..]) && s[1] != '0')
  }

  /** The shape of a rendered integer: digits, with an optional leading minus sign. */
  predicate IsIntText(s: string) {
    forall k :: 0 <= k < |s| ==> IsDigit(s[k]) || (k == 0 && s[k] == '-')
  }

  /** Java's rendering of an `int`: a minus sign before the digits of a negative value. */
  function IntToString(i: int): (s: string)
    ensures |s| > 0 && IsIntText(s) && IsCanonicalIntText(s)
  {
    if i < 0 then
      var digits := NatToString(-i);
      assert ("-" + digits)[1..] == digits;
      "-" + digits
    else NatToString(i)
  }

  /** The value of a string of decimal digits (0 for the empty string). */
  function ParseNat(s: string): (n: nat)
    requires forall i :: 0 <= i < |s| ==> IsDigit(s[i])
    decreases |s|
  {
    if s == [] then 0 else ParseNat(s[..|s| - 1]) * 10 + DigitValue(s[|s| - 1])
  }

  function ParseInt(s: string): (i: int)
    requires IsIntText(s)
  {
    if |s| > 0 && s[0] == '-' then -(ParseNat(s[1..]) as int) else ParseNat(s)
  }

  lemma {:induction false} NatToStringRoundTrip(n: nat)
    ensures ParseNat(NatToString(n)) == n
    decreases n
  {
    if n >= 10 {
      var s := NatToString(n);
      assert s[..|s| - 1] == NatToString(n / 10);
      NatToStringRoundTrip(n / 10);
      DigitRoundTrip(n % 10);
    } else {
      DigitRoundTrip(n);
    }
  }

  /** A negative value renders as a minus sign then the digits of its magnitude, and reads back. */
  lemma NegativeRoundTrip(i: int)
    requires i < 0
    ensures ParseInt(IntToString(i)) == i
  {
    var digits := NatToString(-i);
    assert IntToString(i) == "-" + digits;
    ParseNegative(digits);
    NatToStringRoundTrip(-i);
  }

  /** A minus sign before a digit string negates its value. */
  lemma ParseNegative(digits: string)
    requires IsNatText(digits)
    ensures IsIntText("-" + digits) && ParseInt("-" + digits) == -(ParseNat(digits) as int)
  {
    var s := "-" + digits;
    assert s[0] == '-' && s[1..] == digits;
  }

  /** A non-negative value renders as its digits alone, and reads back. */
  lemma NonNegativeRoundTrip(i: int)
    requires i >= 0
    ensures ParseInt(IntToString(i)) == i
  {
    var s := IntToString(i);
    assert s == NatToString(i);
    assert IsDigit(s[0]);
    NatToStringRoundTrip(i);
  }

  /** Parsing the rendering of any integer gives the integer back. */
  lemma IntToStringRoundTrip(i: int)
    ensures ParseInt(IntToString(i)) == i
  {
    if i < 0 {
      NegativeRoundTrip(i);
    } else {
      NonNegativeRoundTrip(i);
    }
  }

  /** A digit string with a non-zero leading digit has a positive value. */
  lemma {:induction false} LeadingDigitPositive(s: string)
    requires |s| > 0 && (forall i :: 0 <= i < |s| ==> IsDigit(s[i])) && s[0] != '0'
    ensures ParseNat(s) > 0
    decreases |s|
  {
    if |s| > 1 {
      LeadingDigitPositive(s[..|s| - 1]);
    } else {
      assert s[..0] == [];
    }
  }

  /** Every canonical digit string is the rendering of the number it denotes. */
  lemma {:induction false} CanonicalNatRoundTrip(s: string)
    requires IsNatText(s)
    ensures NatToString(ParseNat(s)) == s
    decreases |s|
  {
    var prefix := s[..|s| - 1];
    var last := s[|s| - 1];
    if |s| == 1 {
      assert prefix == [];
      assert s == [last];
    } else {
      assert IsNatText(prefix);
      CanonicalNatRoundTrip(prefix);
      LeadingDigitPositive(prefix);
      var n := ParseNat(s);
      assert n == ParseNat(prefix) * 10 + DigitValue(last);
      assert n / 10 == ParseNat(prefix) && n % 10 == DigitValue(last);
      assert s == prefix + [last];
    }
  }

  /**
   * The rendering is the only canonical text of its value: any canonical
   * integer text is the rendering of the integer it denotes.
   */
  lemma CanonicalRoundTrip(s: string)
    requires IsCanonicalIntText(s)
    ensures IsIntText(s) && IntToString(ParseInt(s)) == s
  {
    if IsNatText(s) {
      CanonicalNatRoundTrip(s);
    } else {
      var digits := s[1..];
      CanonicalNatRoundTrip(digits);
      LeadingDigitPositive(digits);
      assert s == "-" + digits;
    }
  }

  /** Two integers render alike only if they are equal. */
  lemma IntToStringInjective(i: int, j: int)
    requires IntToString(i) == IntToString(j)
    ensures i == j
  {
    IntToStringRoundTrip(i);
    IntToStringRoundTrip(j);
  }

  /**
   * If two strings are split at a separator character that neither
   * left part contains, the left parts (and so the right parts) agree.
   * This is how a rendering with separators is read back unambiguously.
   */
  lemma SplitAtSeparator(sep: char, a: string, s: string, b: string, t: string)
    requires a + s == b + t
    requires sep !in a && sep !in b
    requires |s| > 0 && s[0] == sep && |t| > 0 && t[0] == sep
    ensures a == b && s == t
  {
    assert a == (a + s)[..|a|];
    assert b == (b + t)[..|b|];
    assert s == (a + s)[|a|..];
    assert t == (b + t)[|b|..];
  }

  /** No integer renders as the label "empty": every rendering starts with a digit or '-'. */
  lemma NumberIsNotEmptyLabel(i: int)
    ensures IntToString(i) != "empty"
  {
    var s := IntToString(i);
    assert s[0] != 'e';
  }
}
