/**
 * Java's 32-bit `int` and the two library conversions the Hijri date type relies on:
 * `Integer.parseInt(String)` (radix 10) and `String.valueOf(int)`.
 * Digits are the ASCII digits '0'..'9'.
 */
module Decimal {
  import opened Wrappers

  /** Java's `int`. */
  newtype int32 = x: int | -0x8000_0000 <= x < 0x8000_0000

  /** The exception `Integer.parseInt` throws, carrying the offending input. */
  datatype NumberFormatError = NumberFormatError(input: string)

  predicate IsDigit(c: char) { '0' <= c <= '9' }

  predicate AllDigits(s: string) { forall i :: 0 <= i < |s| ==> IsDigit(s[i]) }

  function DigitValue(c: char): (d: nat)
    requires IsDigit(c)
    ensures d < 10
  {
    (c as int) - ('0' as int)
  }

  function DigitChar(d: nat): (c: char)
    requires d < 10
    ensures IsDigit(c) && DigitValue(c) == d
  {
    (('0' as int) + d) as char
  }

  lemma DigitCharOfValue(c: char)
    requires IsDigit(c)
    ensures DigitChar(DigitValue(c)) == c
  {
  }

  function Pow10(k: nat): (p: nat)
    ensures p >= 1
  {
    if k == 0 then 1 else 10 * Pow10(k - 1)
  }

  /** The number a string of digits spells, most significant digit first. */
  function ValueOf(s: string): (n: nat)
    requires AllDigits(s)
    ensures n < Pow10(|s|)
  {
    if s == [] then 0 else ValueOf(s[..|s| - 1]) * 10 + DigitValue(s[|s| - 1])
  }

  /** Reading a concatenation: the left part is shifted by the width of the right part. */
  lemma {:induction false} ValueOfConcat(a: string, b: string)
    requires AllDigits(a) && AllDigits(b)
    ensures AllDigits(a + b)
    ensures ValueOf(a + b) == ValueOf(a) * Pow10(|b|) + ValueOf(b)
  {
    if b == [] {
      assert a + b == a;
    } else {
      var b' := b[..|b| - 1];
      assert (a + b)[..|a + b| - 1] == a + b';
      ValueOfConcat(a, b');
      assert b' == b[..|b| - 1];
      ShiftDigit(ValueOf(a), Pow10(|b'|), ValueOf(b'), DigitValue(b[|b| - 1]));
    }
  }

  lemma ShiftDigit(x: int, p: int, y: int, d: int)
    ensures (x * p + y) * 10 + d == x * (10 * p) + (y * 10 + d)
  {
  }

  /** A digit string that does not start with '0' spells a number of its full width. */
  lemma {:induction false} ValueOfLowerBound(s: string)
    requires AllDigits(s) && |s| >= 1 && s[0] != '0'
    ensures ValueOf(s) >= Pow10(|s| - 1)
  {
    if |s| > 1 {
      var p := s[..|s| - 1];
      ValueOfLowerBound(p);
    }
  }

  /** The shortest decimal spelling of `n`, as `String.valueOf` writes a non-negative `int`. */
  function Digits(n: nat): (s: string)
    ensures |s| >= 1 && AllDigits(s)
    ensures ValueOf(s) == n
    ensures s[0] == '0' <==> n == 0
  {
    if n < 10 then [DigitChar(n)]
    else
      var p := Digits(n / 10);
      assert (p + [DigitChar(n % 10)])[..|p|] == p;
      p + [DigitChar(n % 10)]
  }

  /** Every digit string without a redundant leading zero is the shortest spelling of its value. */
  lemma {:induction false} DigitsOfValue(s: string)
    requires AllDigits(s) && |s| >= 1
    requires s[0] == '0' ==> |s| == 1
    ensures Digits(ValueOf(s)) == s
  {
    if |s| == 1 {
      DigitCharOfValue(s[0]);
    } else {
      var p := s[..|s| - 1];
      var d := DigitValue(s[|s| - 1]);
      ValueOfLowerBound(p);
      DigitsOfValue(p);
      DigitCharOfValue(s[|s| - 1]);
      assert ValueOf(s) == ValueOf(p) * 10 + d;
      assert ValueOf(s) / 10 == ValueOf(p) && ValueOf(s) % 10 == d;
      assert s == p + [s[|s| - 1]];
    }
  }

  /** `n` written with exactly `width` digits, zeros on the left (the high digits beyond `width` are dropped). */
  function ZeroPadded(n: nat, width: nat): (s: string)
    ensures |s| == width && AllDigits(s)
  {
    if width == 0 then [] else ZeroPadded(n / 10, width - 1) + [DigitChar(n % 10)]
  }

  lemma {:induction false} ValueOfZeroPadded(n: nat, width: nat)
    requires n < Pow10(width)
    ensures ValueOf(ZeroPadded(n, width)) == n
  {
    if width > 0 {
      var s := ZeroPadded(n, width);
      ValueOfZeroPadded(n / 10, width - 1);
      assert s[..|s| - 1] == ZeroPadded(n / 10, width - 1);
    }
  }

  lemma {:induction false} ZeroPaddedOfValue(s: string)
    requires AllDigits(s)
    ensures ZeroPadded(ValueOf(s), |s|) == s
  {
    if s != [] {
      var p := s[..|s| - 1];
      ZeroPaddedOfValue(p);
      DigitCharOfValue(s[|s| - 1]);
      assert ValueOf(s) / 10 == ValueOf(p) && ValueOf(s) % 10 == DigitValue(s[|s| - 1]);
      assert s == p + [s[|s| - 1]];
    }
  }

  /**
   * `Integer.parseInt(s)`: an optional '-' or '+' followed by at least one digit, whose
   * signed value must fit in an `int`; anything else throws `NumberFormatException`.
   */
  function ParseInt(s: string): (r: Result<int32, NumberFormatError>)
    ensures r.Ok? ==> |s| >= 1 && (s[0] == '-' ==> r.value <= 0)
    ensures r.Ok? && s[0] != '-' && s[0] != '+' ==> AllDigits(s) && r.value as int == ValueOf(s)
  {
    if |s| == 0 then Err(NumberFormatError(s))
    else
      var body := if s[0] == '-' || s[0] == '+' then s[1..] else s;
      if |body| == 0 || !AllDigits(body) then Err(NumberFormatError(s))
      else
        var v: int := if s[0] == '-' then -(ValueOf(body) as int) else ValueOf(body);
        if -0x8000_0000 <= v < 0x8000_0000 then Ok(v as int32) else Err(NumberFormatError(s))
  }

  lemma {:induction false} Pow10Monotone(i: nat, j: nat)
    requires i <= j
    ensures Pow10(i) <= Pow10(j)
  {
    if i < j {
      Pow10Monotone(i, j - 1);
    }
  }

  /** A plain digit string of at most nine digits always fits in an `int`: `parseInt` cannot overflow on it. */
  lemma ParseIntShortDigits(s: string)
    requires AllDigits(s) && 1 <= |s| <= 9
    ensures ParseInt(s).Ok? && ParseInt(s).value as int == ValueOf(s)
  {
    Pow10Monotone(|s|, 9);
  }

  /** `String.valueOf(int)`: a '-' for negative values, then the shortest digit string. */
  function DecimalString(n: int32): (s: string)
    ensures |s| >= 1
    ensures n >= 0 <==> AllDigits(s)
    ensures ParseInt(s) == Ok(n)
    ensures n >= 0 ==> (s[0] == '0' ==> |s| == 1)
    ensures n < 0 ==> |s| >= 2 && s[0] == '-' && s[1] != '0'
  {
    if n < 0 then
      var s := "-" + Digits(-(n as int));
      assert s[0] == '-' && s[1..] == Digits(-(n as int));
      s
    else Digits(n as int)
  }
}
