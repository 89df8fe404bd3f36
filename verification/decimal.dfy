/** Decimal text of integers: Kotlin's `Int.toString()` and `String.toIntOrNull()`.
    Kotlin `Int` is 32 bits; the parser rejects values outside that range. */
module Decimal {
  import opened Options

  const IntMin: int := -0x8000_0000
  const IntMax: int := 0x7FFF_FFFF

  predicate IsInt32(x: int) {
    IntMin <= x <= IntMax
  }

  predicate IsDigit(c: char) {
    '0' <= c <= '9'
  }

  predicate AllDigits(s: string) {
    forall i :: 0 <= i < |s| ==> IsDigit(s[i])
  }

  function DigitChar(d: nat): (c: char)
    requires d < 10
    ensures IsDigit(c) && c as int - '0' as int == d
  {
    ('0' as int + d) as char
  }

  /** The decimal digits of `n`, most significant first, without leading zeros. */
  function NatToString(n: nat): (r: string)
    ensures |r| >= 1 && AllDigits(r)
    ensures r[0] == '0' ==> n == 0
    decreases n
  {
    if n < 10 then [DigitChar(n)] else NatToString(n / 10) + [DigitChar(n % 10)]
  }

  /** `x.toString()`: a minus sign for negatives, then the digits of the magnitude. */
  function IntToString(x: int): (r: string)
    ensures |r| >= 1
    ensures x < 0 <==> r[0] == '-'
    ensures forall i :: 0 <= i < |r| ==> IsDigit(r[i]) || (i == 0 && r[i] == '-')
  {
    if x < 0 then "-" + NatToString(-x) else NatToString(x)
  }

  /** The value of a string of decimal digits (leading zeros allowed). */
  function DigitsValue(s: string): nat
    requires AllDigits(s)
    decreases |s|
  {
    if |s| == 0 then 0
    else DigitsValue(s[..|s| - 1]) * 10 + (s[|s| - 1] as int - '0' as int)
  }

  lemma {:induction false} DigitsValueOfNatToString(n: nat)
    ensures DigitsValue(NatToString(n)) == n
    decreases n
  {
    if n >= 10 {
      var r := NatToString(n);
      DigitsValueOfNatToString(n / 10);
      assert r[..|r| - 1] == NatToString(n / 10);
    }
  }

  /** `s.toIntOrNull()` (radix 10, ASCII digits): an optional leading `-` or `+`,
      then at least one digit, and the value must fit in 32 bits. */
  function ParseInt(s: string): (r: Option<int>)
    ensures r.Some? ==> IsInt32(r.value)
    ensures r.Some? ==> |s| >= 1 && (AllDigits(s) || (|s| >= 2 && (s[0] == '-' || s[0] == '+') && AllDigits(s[1..])))
  {
    if |s| == 0 then None
    else if s[0] < '0' then
      if |s| == 1 then None
      else if s[0] == '-' then
        if AllDigits(s[1..]) && IsInt32(0 - DigitsValue(s[1..])) then Some(0 - DigitsValue(s[1..])) else None
      else if s[0] == '+' then
        if AllDigits(s[1..]) && IsInt32(DigitsValue(s[1..])) then Some(DigitsValue(s[1..])) else None
      else None
    else if AllDigits(s) && IsInt32(DigitsValue(s)) then Some(DigitsValue(s)) else None
  }

  /** Every 32-bit integer reads back from its own decimal text. */
  lemma ParseIntToString(x: int)
    requires IsInt32(x)
    ensures ParseInt(IntToString(x)) == Some(x)
  {
    if x < 0 {
      DigitsValueOfNatToString(-x);
      assert IntToString(x)[1..] == NatToString(-x);
    } else {
      DigitsValueOfNatToString(x);
    }
  }

  lemma NatToStringInjective(a: nat, b: nat)
    requires NatToString(a) == NatToString(b)
    ensures a == b
  {
    DigitsValueOfNatToString(a);
    DigitsValueOfNatToString(b);
  }

  /** Distinct integers have distinct decimal text, whatever their size. */
  lemma IntToStringInjective(x: int, y: int)
    requires IntToString(x) == IntToString(y)
    ensures x == y
  {
    var r := IntToString(x);
    if x < 0 {
      assert y < 0;
      assert r == "-" + NatToString(-x) && r == "-" + NatToString(-y);
      assert r[1..] == NatToString(-x) && r[1..] == NatToString(-y);
      NatToStringInjective(-x, -y);
    } else {
      assert y >= 0;
      NatToStringInjective(x, y);
    }
  }
}
