/**
 * Decimal numerals for integers, as JavaScript's template literal `${n}`
 * renders an integral Number (server.js:19): an optional minus sign, then the
 * digits of the magnitude with no leading zero. The parser beside it accepts
 * exactly the numerals the renderer produces.
 */
module Decimal {
  import opened Options

  predicate IsDigit(c: char) {
    '0' <= c <= '9'
  }

  predicate AllDigits(s: string) {
    forall i :: 0 <= i < |s| ==> IsDigit(s[i])
  }

  /** At least one digit, and no leading zero unless the numeral is "0". */
  predicate Canonical(s: string) {
    |s| >= 1 && AllDigits(s) && (s[0] == '0' ==> |s| == 1)
  }

  function DigitValue(c: char): (d: nat)
    requires IsDigit(c)
    ensures d < 10
  {
    c as int - '0' as int
  }

  function DigitChar(d: nat): (c: char)
    requires d < 10
    ensures IsDigit(c) && DigitValue(c) == d
  {
    ('0' as int + d) as char
  }

  /** The digits of `n`, most significant first. */
  function NatToDecimal(n: nat): (r: string)
    ensures Canonical(r)
    ensures r[0] == '0' ==> n == 0
    decreases n
  {
    if n < 10 then [DigitChar(n)]
    else NatToDecimal(n / 10) + [DigitChar(n % 10)]
  }

  /** The number a string of digits denotes. */
  function DecimalValue(s: string): nat
    requires AllDigits(s)
    decreases |s|
  {
    if s == [] then 0 else 10 * DecimalValue(s[..|s| - 1]) + DigitValue(s[|s| - 1])
  }

  /** The rendered digits denote the number rendered. */
  lemma {:induction false} DecimalValueOfNatToDecimal(n: nat)
    ensures DecimalValue(NatToDecimal(n)) == n
    decreases n
  {
    if n >= 10 {
      DecimalValueOfNatToDecimal(n / 10);
      var r := NatToDecimal(n);
      assert r[..|r| - 1] == NatToDecimal(n / 10);
    }
  }

  lemma {:induction false} LeadingDigitPositive(s: string)
    requires |s| >= 1 && AllDigits(s) && s[0] != '0'
    ensures DecimalValue(s) >= 1
    decreases |s|
  {
    if |s| > 1 {
      LeadingDigitPositive(s[..|s| - 1]);
    }
  }

  /** Every canonical numeral is the rendering of the number it denotes. */
  lemma {:induction false} NatToDecimalOfDecimalValue(s: string)
    requires Canonical(s)
    ensures NatToDecimal(DecimalValue(s)) == s
    decreases |s|
  {
    if |s| > 1 {
      var p := s[..|s| - 1];
      LeadingDigitPositive(p);
      NatToDecimalOfDecimalValue(p);
      var n := DecimalValue(s);
      assert n / 10 == DecimalValue(p) && n % 10 == DigitValue(s[|s| - 1]);
      assert DigitChar(n % 10) == s[|s| - 1];
      assert s == p + [s[|s| - 1]];
    } else {
      assert DigitChar(DigitValue(s[0])) == s[0];
    }
  }

  /** Reads a canonical numeral; anything else is refused. */
  function ParseNat(s: string): (r: Option<nat>)
  {
    if Canonical(s) then Some(DecimalValue(s)) else None
  }

  /** `${i}` for an integral Number `i`. */
  function IntToDecimal(i: int): (r: string)
    ensures |r| >= 1 && (r[0] == '-' <==> i < 0)
    ensures forall k :: 0 <= k < |r| ==> IsDigit(r[k]) || r[k] == '-'
  {
    if i < 0 then "-" + NatToDecimal(-i) else NatToDecimal(i)
  }

  /** Reads what IntToDecimal renders: a canonical numeral, or "-" and a non-zero one. */
  function ParseInt(s: string): (r: Option<int>)
  {
    if |s| >= 1 && s[0] == '-' then
      match ParseNat(s[1..])
      case Some(n) => if n == 0 then None else Some(0 - n as int)
      case None => None
    else
      match ParseNat(s)
      case Some(n) => Some(n)
      case None => None
  }

  /** Reading back a rendered integer gives that integer. */
  lemma ParseIntOfIntToDecimal(i: int)
    ensures ParseInt(IntToDecimal(i)) == Some(i)
  {
    if i < 0 {
      DecimalValueOfNatToDecimal(-i);
      assert IntToDecimal(i)[1..] == NatToDecimal(-i);
    } else {
      DecimalValueOfNatToDecimal(i);
    }
  }

  /** Whatever the reader accepts is the rendering of what it reads. */
  lemma IntToDecimalOfParseInt(s: string, i: int)
    requires ParseInt(s) == Some(i)
    ensures IntToDecimal(i) == s
  {
    if |s| >= 1 && s[0] == '-' {
      var magnitude := s[1..];
      assert Canonical(magnitude) && i == 0 - DecimalValue(magnitude) as int && i < 0;
      NatToDecimalOfDecimalValue(magnitude);
      assert IntToDecimal(i) == "-" + magnitude;
      assert s == "-" + magnitude;
    } else {
      assert Canonical(s) && i == DecimalValue(s);
      NatToDecimalOfDecimalValue(s);
    }
  }
}
