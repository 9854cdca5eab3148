/** Decimal text: Ruby's `Integer#to_s` and the part of `String#to_i` that
    panel frames exercise (strings over the digits and '-'). */
module Decimal {

  predicate IsDigit(c: char) { '0' <= c <= '9' }

  predicate AllDigits(s: string) { forall i | 0 <= i < |s| :: IsDigit(s[i]) }

  function DigitValue(c: char): (d: nat)
    requires IsDigit(c)
    ensures d < 10
  {
    (c as int) - ('0' as int)
  }

  function DigitChar(d: nat): (c: char)
    requires d < 10
    ensures IsDigit(c) && DigitValue(c) == d
  {
    (('0' as int) + d) as char
  }

  /** `Integer#to_s` for a non-negative integer: shortest decimal numeral. */
  function NatToS(n: nat): (s: string)
    ensures 1 <= |s| && AllDigits(s)
    ensures |s| > 1 ==> s[0] != '0'
    decreases n
  {
    if n < 10 then [DigitChar(n)] else NatToS(n / 10) + [DigitChar(n % 10)]
  }

  /** `Integer#to_s`: a minus sign for negative numbers. */
  function IntToS(i: int): string
  {
    if i < 0 then "-" + NatToS(-i) else NatToS(i)
  }

  /** The number a string of decimal digits denotes, most significant first. */
  function DigitsValue(s: string): nat
    requires AllDigits(s)
  {
    if s == [] then 0 else DigitsValue(s[..|s| - 1]) * 10 + DigitValue(s[|s| - 1])
  }

  /** The longest prefix of `s` made of decimal digits. */
  function DigitPrefix(s: string): (p: string)
    ensures |p| <= |s| && p == s[..|p|] && AllDigits(p)
    ensures |p| < |s| ==> !IsDigit(s[|p|])
  {
    if s == [] || !IsDigit(s[0]) then [] else [s[0]] + DigitPrefix(s[1..])
  }

  /** `String#to_i` on strings over the digits and '-': an optional minus sign
      directly followed by digits, then the longest run of digits; any other
      start reads as 0. */
  function ToI(s: string): int
  {
    if |s| >= 2 && s[0] == '-' && IsDigit(s[1]) then -(DigitsValue(DigitPrefix(s[1..])) as int)
    else DigitsValue(DigitPrefix(s))
  }

  lemma {:induction false} DigitPrefixOfDigits(s: string)
    requires AllDigits(s)
    ensures DigitPrefix(s) == s
  {
    if s != [] {
      DigitPrefixOfDigits(s[1..]);
    }
  }

  lemma {:induction false} DigitsValueOfNatToS(n: nat)
    ensures DigitsValue(NatToS(n)) == n
    decreases n
  {
    if n >= 10 {
      var s := NatToS(n);
      assert s[..|s| - 1] == NatToS(n / 10);
      DigitsValueOfNatToS(n / 10);
    }
  }

  /** `to_i` undoes `to_s`: the decimal text of every integer reads back as that integer. */
  lemma IntToSRoundTrip(i: int)
    ensures ToI(IntToS(i)) == i
  {
    var m := if i < 0 then -i else i;
    DigitPrefixOfDigits(NatToS(m));
    DigitsValueOfNatToS(m);
    if i < 0 {
      assert IntToS(i)[1..] == NatToS(m);
    }
  }

  /** `to_i` of a string of digits is the number they denote, so it is never negative. */
  lemma {:induction false} ToIOfDigits(s: string)
    requires AllDigits(s)
    ensures ToI(s) == DigitsValue(s) >= 0
  {
    DigitPrefixOfDigits(s);
  }

  /** A run of dashes reads as 0. */
  lemma ToIOfDashes(s: string)
    requires forall i | 0 <= i < |s| :: s[i] == '-'
    ensures ToI(s) == 0
  {
  }

  /** `to_i` reads a two-character field of two digits as the two-digit number. */
  lemma TwoDigitField(s: string)
    requires |s| == 2 && IsDigit(s[0]) && IsDigit(s[1])
    ensures ToI(s) == 10 * DigitValue(s[0]) + DigitValue(s[1])
  {
    ToIOfDigits(s);
    assert s[..|s| - 1] == [s[0]];
    assert DigitsValue([s[0]]) == DigitValue(s[0]) by {
      assert [s[0]][..0] == [];
    }
  }
}
