/** Positional numerals: what the integer printers of Log/LogStream.cpp are meant to produce, defined
    without reference to how they produce it. */
module Numerals {
  import opened CInt

  const DIGITS := "0123456789ABCDEF"

  predicate IsBase(base: nat) {
    base == 10 || base == 16
  }

  function DigitsOf(n: nat, base: nat): string
    requires IsBase(base)
  {
    if n < base then [DIGITS[n]] else DigitsOf(n / base, base) + [DIGITS[n % base]]
  }

  function Decimal(value: int): string {
    if value < 0 then "-" + DigitsOf(-value, 10) else DigitsOf(value, 10)
  }

  function Hexadecimal(value: nat): string {
    DigitsOf(value, 16)
  }

  function DigitValue(c: char): int {
    if '0' <= c <= '9' then c as int - '0' as int
    else if 'A' <= c <= 'F' then c as int - 'A' as int + 10
    else -1
  }

  predicate IsNumeral(s: string, base: nat) {
    |s| > 0 && forall i | 0 <= i < |s| :: 0 <= DigitValue(s[i]) < base
  }

  /** No leading zero except in "0" itself. */
  predicate IsCanonical(s: string, base: nat) {
    IsNumeral(s, base) && (s[0] == '0' ==> |s| == 1)
  }

  predicate IsCanonicalInteger(s: string) {
    IsCanonical(s, 10) || (|s| > 1 && s[0] == '-' && s[1] != '0' && IsCanonical(s[1..], 10))
  }

  function Parse(s: string, base: nat): (n: nat)
    requires IsNumeral(s, base)
  {
    var d := DigitValue(s[|s| - 1]);
    if |s| == 1 then d else Parse(s[..|s| - 1], base) * base + d
  }

  function ParseInteger(s: string): int
    requires IsCanonicalInteger(s)
  {
    if s[0] == '-' then 0 - Parse(s[1..], 10) else Parse(s, 10)
  }

  lemma DigitChars(d: nat)
    requires d < 16
    ensures DigitValue(DIGITS[d]) == d
    ensures DIGITS[d] == '0' <==> d == 0
  {
    assert d in [0, 1, 2, 3, 4, 5, 6, 7, 8, 9, 10, 11, 12, 13, 14, 15];
  }

  lemma CharOfDigit(c: char)
    requires 0 <= DigitValue(c) < 16
    ensures DIGITS[DigitValue(c)] == c
  {
    var d := DigitValue(c);
    assert d in [0, 1, 2, 3, 4, 5, 6, 7, 8, 9, 10, 11, 12, 13, 14, 15];
  }

  /** Printing a number and reading the text gives the number back. */
  lemma {:induction false} DigitsRoundTrip(n: nat, base: nat)
    requires IsBase(base)
    ensures IsCanonical(DigitsOf(n, base), base)
    ensures Parse(DigitsOf(n, base), base) == n
    ensures n > 0 ==> DigitsOf(n, base)[0] != '0'
  {
    DigitChars(n % base);
    if n < base {
      DigitChars(n);
    } else {
      var t := DigitsOf(n / base, base);
      DigitsRoundTrip(n / base, base);
      var s := t + [DIGITS[n % base]];
      assert s[..|s| - 1] == t;
      assert n / base * base + n % base == n;
    }
  }

  lemma DigitsOfSnoc(n: nat, d: nat, base: nat)
    requires IsBase(base) && n > 0 && d < base
    ensures DigitsOf(n * base + d, base) == DigitsOf(n, base) + [DIGITS[d]]
  {
    if base == 10 {
      QuotientIs(n * 10 + d, 10, n);
    } else {
      QuotientIs(n * 16 + d, 16, n);
    }
  }

  /** Reading a canonical text and printing the number gives the text back. */
  lemma {:induction false} CanonicalRoundTrip(s: string, base: nat)
    requires IsBase(base) && IsCanonical(s, base)
    ensures DigitsOf(Parse(s, base), base) == s
    ensures s[0] != '0' ==> Parse(s, base) > 0
  {
    var t, c := s[..|s| - 1], s[|s| - 1];
    var d := DigitValue(c);
    CharOfDigit(c);
    assert s == t + [c];
    if |s| > 1 {
      assert t[0] == s[0];
      CanonicalRoundTrip(t, base);
      var n := Parse(t, base);
      DigitsOfSnoc(n, d, base);
      assert Parse(s, base) == n * base + d;
    }
  }

  /** `Decimal` and `ParseInteger` are inverse bijections between integers and canonical texts. */
  lemma DecimalRoundTrip(value: int)
    ensures IsCanonicalInteger(Decimal(value)) && ParseInteger(Decimal(value)) == value
  {
    var n := if value < 0 then -value else value;
    var s := DigitsOf(n, 10);
    DigitsRoundTrip(n, 10);
    assert ("-" + s)[1..] == s;
    assert 0 <= DigitValue(s[0]) < 10;
  }

  lemma IntegerRoundTrip(s: string)
    requires IsCanonicalInteger(s)
    ensures Decimal(ParseInteger(s)) == s
  {
    if s[0] == '-' {
      assert DigitValue(s[0]) == -1;
      CanonicalRoundTrip(s[1..], 10);
      assert s == "-" + s[1..];
    } else {
      CanonicalRoundTrip(s, 10);
    }
  }

  function Power(base: nat, k: nat): nat {
    if k == 0 then 1 else base * Power(base, k - 1)
  }

  /** A number below `base` to the `k` has at most `k` digits. */
  lemma {:induction false} DigitCount(n: nat, base: nat, k: nat)
    requires IsBase(base) && k > 0 && n < Power(base, k)
    ensures |DigitsOf(n, base)| <= k
  {
    if n >= base {
      assert k > 1 by { assert Power(base, 1) == base; }
      assert n / base < Power(base, k - 1);
      DigitCount(n / base, base, k - 1);
    }
  }

  lemma DecimalLength(value: int)
    requires -0x8000_0000_0000_0000 <= value <= 0xFFFF_FFFF_FFFF_FFFF
    ensures |Decimal(value)| <= 20
  {
    assert Power(10, 5) == 100000;
    assert Power(10, 10) == 100000 * Power(10, 5);
    assert Power(10, 15) == 100000 * Power(10, 10);
    assert Power(10, 19) == 10000 * Power(10, 15);
    assert Power(10, 20) == 10 * Power(10, 19);
    DigitCount(if value < 0 then -value else value, 10, if value < 0 then 19 else 20);
  }

  lemma HexadecimalLength(value: nat)
    requires value <= 0xFFFF_FFFF_FFFF_FFFF
    ensures |Hexadecimal(value)| <= 16
  {
    assert Power(16, 4) == 65536;
    assert Power(16, 8) == 65536 * Power(16, 4);
    assert Power(16, 12) == 65536 * Power(16, 8);
    assert Power(16, 16) == 65536 * Power(16, 12);
    DigitCount(value, 16, 16);
  }
}
