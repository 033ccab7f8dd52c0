/** Decimal rendering of numbers, and its inverse. */
module Decimal {
  function Digit(d: nat): (c: char)
    requires d < 10
    ensures '0' <= c <= '9'
  {
    (d as char) + '0'
  }

  predicate IsDigit(c: char) { '0' <= c <= '9' }

  function Value(c: char): (d: nat)
    requires IsDigit(c)
    ensures d < 10
  {
    (c - '0') as nat
  }

  /** The digits of n, most significant first, without leading zeros. */
  function Digits(n: nat): (s: string)
    ensures s != "" && forall i :: 0 <= i < |s| ==> IsDigit(s[i])
  {
    if n < 10 then [Digit(n)] else Digits(n / 10) + [Digit(n % 10)]
  }

  /** The number a run of digits denotes. */
  function Number(s: string): nat
    requires forall i :: 0 <= i < |s| ==> IsDigit(s[i])
  {
    if s == "" then 0 else Number(s[..|s| - 1]) * 10 + Value(s[|s| - 1])
  }

  lemma DigitValue(d: nat)
    requires d < 10
    ensures Value(Digit(d)) == d
  {}

  lemma {:induction false} NumberOfDigits(n: nat)
    ensures Number(Digits(n)) == n
  {
    DigitValue(n % 10);
    if n < 10 {
      assert Digits(n)[..0] == "";
    } else {
      assert Digits(n)[..|Digits(n)| - 1] == Digits(n / 10);
      NumberOfDigits(n / 10);
    }
  }

  const FIGURES := "0123456789"

  /** s is a numeral of n in base 10. */
  predicate IsNumeral(s: string, n: nat) {
    if s == "" then n == 0 else s[|s| - 1] == FIGURES[n % 10] && IsNumeral(s[..|s| - 1], n / 10)
  }

  lemma FigureIs(d: nat)
    requires d < 10
    ensures Digit(d) == FIGURES[d] && (Digit(d) == '0' <==> d == 0)
  {
    assert d == 0 || d == 1 || d == 2 || d == 3 || d == 4 || d == 5 || d == 6 || d == 7 || d == 8 || d == 9;
  }

  /** The digits of a number are its numeral, without zeros before it. */
  lemma {:induction false} DigitsAreNumeral(n: nat)
    ensures IsNumeral(Digits(n), n) && (Digits(n)[0] == '0' <==> n == 0) && (n == 0 ==> Digits(n) == "0")
  {
    FigureIs(n % 10);
    if n < 10 {
      assert Digits(n)[..0] == "";
    } else {
      DigitsAreNumeral(n / 10);
      assert Digits(n)[..|Digits(n)| - 1] == Digits(n / 10);
    }
  }

  /** What a run of digits denotes is the number it is a numeral of. */
  lemma {:induction false} NumberOfNumeral(s: string, n: nat)
    requires forall i :: 0 <= i < |s| ==> IsDigit(s[i])
    ensures Number(s) == n <==> IsNumeral(s, n)
  {
    if s != "" {
      var init, d := s[..|s| - 1], Value(s[|s| - 1]);
      FigureIs(d);
      FigureIs(n % 10);
      DigitValue(n % 10);
      NumberOfNumeral(init, n / 10);
      assert Digit(d) == s[|s| - 1];
    }
  }

  /** The decimal text of a number, as the format %d gives it. */
  function Decimals(n: int): string { if n < 0 then "-" + Digits(-n) else Digits(n) }

  predicate IsSpace(c: char) { c == ' ' || c == '\t' || c == '\n' || c == '\r' || c == '\U{0B}' || c == '\U{0C}' }

  function SkipSpaces(s: string): string {
    if s != "" && IsSpace(s[0]) then SkipSpaces(s[1..]) else s
  }

  /** The digits s starts with. */
  function DigitRun(s: string): (r: string)
    ensures forall i :: 0 <= i < |r| ==> IsDigit(r[i])
  {
    if s != "" && IsDigit(s[0]) then [s[0]] + DigitRun(s[1..]) else ""
  }

  const MIN64 := -0x8000_0000_0000_0000
  const MAX64 := 0x7fff_ffff_ffff_ffff

  function Clamp(n: int): (r: int)
    ensures MIN64 <= r <= MAX64 && (r < n ==> r == MAX64) && (r > n ==> r == MIN64)
  {
    if n < MIN64 then MIN64 else if n > MAX64 then MAX64 else n
  }

  /** strtoll: the number s starts with, kept within 64 bits. */
  function Strtoll(s: string): (n: int)
    ensures MIN64 <= n <= MAX64
  {
    var t := SkipSpaces(s);
    if t != "" && t[0] == '-' then Clamp(0 - Number(DigitRun(t[1..])))
    else if t != "" && t[0] == '+' then Clamp(Number(DigitRun(t[1..])))
    else Clamp(Number(DigitRun(t)))
  }

  lemma {:induction false} DigitRunIs(s: string)
    requires forall i :: 0 <= i < |s| ==> IsDigit(s[i])
    ensures DigitRun(s) == s
  {
    if s != "" { DigitRunIs(s[1..]); }
  }

  /** A 64-bit number is read as it was written. */
  lemma StrtollOfDecimals(n: int)
    requires MIN64 <= n <= MAX64
    ensures Strtoll(Decimals(n)) == n
  {
    hide Digits, Number;
    NumberOfDigits(if n < 0 then -n else n);
    DigitRunIs(Digits(if n < 0 then -n else n));
    if n < 0 { assert Decimals(n)[1..] == Digits(-n); } else { assert IsDigit(Decimals(n)[0]); }
  }
}
