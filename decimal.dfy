/**
 * Decimal rendering of integers as JavaScript's `Number.prototype.toString` writes them,
 * `padStart(2, '0')`, and the digit-reading function that undoes both.
 */
module Decimal {

  predicate IsDigit(c: char) {
    '0' <= c <= '9'
  }

  predicate IsDigits(s: string) {
    forall i :: 0 <= i < |s| ==> IsDigit(s[i])
  }

  function DigitChar(d: nat): (c: char)
    requires d < 10
    ensures IsDigit(c)
  {
    ('0' as int + d) as char
  }

  function DigitValue(c: char): (d: nat)
    requires IsDigit(c)
    ensures d < 10
  {
    c as int - '0' as int
  }

  /** The decimal digits of `n`, most significant first, without leading zeros. */
  function NatToString(n: nat): (r: string)
    ensures |r| >= 1 && IsDigits(r)
    decreases n
  {
    if n < 10 then [DigitChar(n)] else NatToString(n / 10) + [DigitChar(n % 10)]
  }

  /** The number a string of decimal digits denotes (leading zeros allowed). */
  function ValueOf(s: string): nat
    requires IsDigits(s)
  {
    if s == [] then 0 else 10 * ValueOf(s[..|s| - 1]) + DigitValue(s[|s| - 1])
  }

  /** Reading back the digits `NatToString` writes gives the number again. */
  lemma {:induction false} ValueOfNatToString(n: nat)
    ensures ValueOf(NatToString(n)) == n
    decreases n
  {
    var r := NatToString(n);
    if n >= 10 {
      ValueOfNatToString(n / 10);
      assert r[..|r| - 1] == NatToString(n / 10);
    }
  }

  /** Different numbers are written differently. */
  lemma NatToStringInjective(a: nat, b: nat)
    requires NatToString(a) == NatToString(b)
    ensures a == b
  {
    ValueOfNatToString(a);
    ValueOfNatToString(b);
  }

  /** `i.toString()` for an integer `i`: a minus sign before the digits of a negative number. */
  function IntToString(i: int): (r: string)
    ensures i >= 0 ==> r == NatToString(i)
    ensures i < 0 ==> |r| >= 2 && r[0] == '-' && r[1..] == NatToString(-i)
  {
    if i < 0 then "-" + NatToString(-i) else NatToString(i)
  }

  /** `s.padStart(2, '0')`: zeros added in front up to two characters. */
  function PadStart2(s: string): (r: string)
    ensures |r| == if |s| < 2 then 2 else |s|
    ensures r[|r| - |s|..] == s
    ensures forall i :: 0 <= i < |r| - |s| ==> r[i] == '0'
  {
    if |s| >= 2 then s else seq(2 - |s|, _ => '0') + s
  }

  /** Leading zeros do not change the value of a digit string. */
  lemma {:induction false} ValueOfLeadingZero(s: string)
    requires IsDigits(s)
    ensures IsDigits("0" + s) && ValueOf("0" + s) == ValueOf(s)
    decreases |s|
  {
    var z := "0" + s;
    if s != [] {
      assert z[..|z| - 1] == "0" + s[..|s| - 1];
      ValueOfLeadingZero(s[..|s| - 1]);
    }
  }

  /** Padding a non-negative number's digits to two places keeps its value. */
  lemma ValueOfPadded(n: nat)
    ensures IsDigits(PadStart2(NatToString(n)))
    ensures ValueOf(PadStart2(NatToString(n))) == n
  {
    var s := NatToString(n);
    ValueOfNatToString(n);
    if |s| < 2 {
      assert PadStart2(s) == "0" + s;
      ValueOfLeadingZero(s);
    }
  }
}
