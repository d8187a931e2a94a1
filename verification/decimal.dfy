/** Decimal text for natural numbers and fractions: the digits Rust's `{}`
    prints for an unsigned integer, and the reader that gets them back. */
module Decimal {

  predicate IsDigit(c: char) {
    '0' <= c <= '9'
  }

  predicate AllDigits(s: string) {
    |s| == 0 || (IsDigit(s[0]) && AllDigits(s[1..]))
  }

  lemma {:induction false} AllDigitsAt(s: string, i: nat)
    requires AllDigits(s) && i < |s|
    ensures IsDigit(s[i])
  {
    if i > 0 {
      AllDigitsAt(s[1..], i - 1);
    }
  }

  lemma {:induction false} AllDigitsConcat(a: string, b: string)
    requires AllDigits(a) && AllDigits(b)
    ensures AllDigits(a + b)
  {
    if |a| == 0 {
      assert a + b == b;
    } else {
      assert (a + b)[1..] == a[1..] + b;
      AllDigitsConcat(a[1..], b);
    }
  }

  lemma {:induction false} AllDigitsPrefix(s: string, k: nat)
    requires AllDigits(s) && k <= |s|
    ensures AllDigits(s[..k])
  {
    if k > 0 {
      assert s[..k][1..] == s[1..][..k - 1];
      AllDigitsPrefix(s[1..], k - 1);
    }
  }

  function DigitChar(d: nat): (c: char)
    requires d < 10
    ensures IsDigit(c)
  {
    (('0' as int) + d) as char
  }

  function DigitValue(c: char): (d: nat)
    requires IsDigit(c)
    ensures d < 10
  {
    (c as int) - ('0' as int)
  }

  lemma DigitRoundTrip(d: nat)
    requires d < 10
    ensures DigitValue(DigitChar(d)) == d
  {
  }

  function Pow10(k: nat): (p: nat)
    ensures p >= 1
  {
    if k == 0 then 1 else 10 * Pow10(k - 1)
  }

  /** The value of a string of digits, most significant first. */
  function ParseDigits(s: string): nat
    requires AllDigits(s)
  {
    if |s| == 0 then 0
    else
      AllDigitsPrefix(s, |s| - 1);
      AllDigitsAt(s, |s| - 1);
      10 * ParseDigits(s[..|s| - 1]) + DigitValue(s[|s| - 1])
  }

  /** `n` written in base ten without leading zeros. */
  function NatToString(n: nat): (s: string)
    ensures 1 <= |s|
    ensures AllDigits(s)
    ensures ParseDigits(s) == n
    ensures s[0] == '0' ==> n == 0 && |s| == 1
    ensures n < 10 <==> |s| == 1
  {
    if n < 10 then
      [DigitChar(n)]
    else
      var init := NatToString(n / 10);
      var s := init + [DigitChar(n % 10)];
      AllDigitsConcat(init, [DigitChar(n % 10)]);
      assert s[..|s| - 1] == init;
      s
  }

  /** Distinct numbers print differently. */
  lemma NatToStringInjective(m: nat, n: nat)
    requires NatToString(m) == NatToString(n)
    ensures m == n
  {
  }

  /** A number below `10^d` needs at most `d` digits (and at least one). */
  lemma {:induction false} NatToStringLength(n: nat, d: nat)
    requires 1 <= d
    requires n < Pow10(d)
    ensures |NatToString(n)| <= d
  {
    if n >= 10 {
      assert d >= 2;
      assert n / 10 < Pow10(d - 1);
      NatToStringLength(n / 10, d - 1);
    }
  }

  predicate AllBelowTen(ds: seq<nat>) {
    forall i :: 0 <= i < |ds| ==> ds[i] < 10
  }

  /** Digit values (each below ten) as text. */
  function DigitsToString(ds: seq<nat>): (s: string)
    requires AllBelowTen(ds)
    ensures |s| == |ds|
    ensures AllDigits(s)
  {
    if |ds| == 0 then [] else [DigitChar(ds[0])] + DigitsToString(ds[1..])
  }

  /** The digit values of a string of digits. */
  function Values(s: string): (ds: seq<nat>)
    requires AllDigits(s)
    ensures |ds| == |s|
  {
    if |s| == 0 then [] else [DigitValue(s[0])] + Values(s[1..])
  }

  lemma {:induction false} ValuesOfDigits(ds: seq<nat>)
    requires AllBelowTen(ds)
    ensures Values(DigitsToString(ds)) == ds
  {
    if |ds| > 0 {
      var s := DigitsToString(ds);
      assert s[1..] == DigitsToString(ds[1..]);
      ValuesOfDigits(ds[1..]);
      DigitRoundTrip(ds[0]);
    }
  }

  /** The value of the digits after a decimal point: `0.d0 d1 d2 ...`. */
  function FracValue(ds: seq<nat>): real {
    if |ds| == 0 then 0.0 else (ds[0] as real + FracValue(ds[1..])) / 10.0
  }

  predicate AllZero(ds: seq<nat>) {
    |ds| == 0 || (ds[0] == 0 && AllZero(ds[1..]))
  }

  /** Drops the zero digits at the end of a fraction: scanning from the
      front, everything from the first position after which only zeros
      follow is cut. */
  function TrimZeros(ds: seq<nat>): (r: seq<nat>)
    ensures |r| <= |ds|
    ensures AllBelowTen(ds) ==> AllBelowTen(r)
  {
    if AllZero(ds) then [] else [ds[0]] + TrimZeros(ds[1..])
  }

  /** What is kept is a prefix ending in a nonzero digit, and what is cut
      holds only zeros. */
  lemma {:induction false} TrimZerosShape(ds: seq<nat>)
    ensures TrimZeros(ds) == ds[..|TrimZeros(ds)|]
    ensures AllZero(ds[|TrimZeros(ds)|..])
    ensures |TrimZeros(ds)| > 0 ==> TrimZeros(ds)[|TrimZeros(ds)| - 1] != 0
  {
    if !AllZero(ds) {
      var rest := TrimZeros(ds[1..]);
      TrimZerosShape(ds[1..]);
      assert ds[1..][|rest|..] == ds[|rest| + 1..];
      assert ds[..|rest| + 1] == [ds[0]] + ds[1..][..|rest|];
      if |rest| == 0 {
        assert ds[1..] == ds[1..][0..];
      }
    }
  }

  lemma {:induction false} FracValueAllZero(ds: seq<nat>)
    requires AllZero(ds)
    ensures FracValue(ds) == 0.0
  {
    if |ds| > 0 {
      FracValueAllZero(ds[1..]);
    }
  }

  /** Trailing zeros of a fraction do not change its value. */
  lemma {:induction false} FracValueTrimZeros(ds: seq<nat>)
    ensures FracValue(TrimZeros(ds)) == FracValue(ds)
  {
    if AllZero(ds) {
      FracValueAllZero(ds);
    } else {
      FracValueTrimZeros(ds[1..]);
      assert TrimZeros(ds)[1..] == TrimZeros(ds[1..]);
    }
  }
}
