/** Numbers with SI prefixes as streams print them (src/view.rs
    `format_quantity`). The floating-point core of the source (the `log10`
    magnitude, the `{:.*}` rounding and the check whether rounding carried
    into the next magnitude) is not modelled: its results, the chosen
    magnitude and the rounded digits, are the inputs here. What is modelled
    is everything done with them: the prefix table, the removal of trailing
    zeros and the composition with the styles and the unit. */
module Quantity {
  import opened Wrappers
  import opened Decimal
  import opened Printed

  /** A number as `{:.*}` prints it after rounding: a sign, the integer
      digits and exactly `precision` decimals. Rust keeps the sign of a
      negative number that rounds to zero ("-0.000"). */
  datatype Fixed = Fixed(negative: bool, whole: nat, fraction: seq<nat>)

  predicate ValidFixed(f: Fixed) {
    AllBelowTen(f.fraction)
  }

  function SignText(negative: bool): string {
    if negative then "-" else ""
  }

  function FixedText(f: Fixed): string
    requires ValidFixed(f)
  {
    SignText(f.negative) + NatToString(f.whole)
      + (if |f.fraction| == 0 then "" else "." + DigitsToString(f.fraction))
  }

  /** The number the text denotes. */
  function FixedValue(f: Fixed): real {
    var v := f.whole as real + FracValue(f.fraction);
    if f.negative then -v else v
  }

  // ---------------------------------------------------------------------
  // Removing trailing zeros: the leftmost match of the regex `\.?0+$` is
  // replaced by nothing.

  /** `0+$`: one or more zeros and nothing after them. */
  predicate ZeroRun(s: string) {
    |s| > 0 && s[0] == '0' && (|s| == 1 || ZeroRun(s[1..]))
  }

  /** `\.?0+$` matches at the start of `s`. */
  predicate ZeroTailAt(s: string) {
    ZeroRun(s) || (|s| > 0 && s[0] == '.' && ZeroRun(s[1..]))
  }

  /** Cuts the text at the first position where the regex matches; the
      text is unchanged when it matches nowhere. */
  function RemoveZeroTail(s: string): (r: string)
    ensures |r| <= |s|
  {
    if |s| == 0 || ZeroTailAt(s) then [] else [s[0]] + RemoveZeroTail(s[1..])
  }

  /** The result is a prefix of the text; what was cut is one match of the
      regex, and the regex matches at no earlier position. */
  lemma {:induction false} RemoveZeroTailIsLeftmostMatch(s: string)
    ensures RemoveZeroTail(s) == s[..|RemoveZeroTail(s)|]
    ensures |RemoveZeroTail(s)| == |s| || ZeroTailAt(s[|RemoveZeroTail(s)|..])
    ensures forall p :: 0 <= p < |RemoveZeroTail(s)| ==> !ZeroTailAt(s[p..])
  {
    if |s| > 0 && !ZeroTailAt(s) {
      var rest := RemoveZeroTail(s[1..]);
      RemoveZeroTailIsLeftmostMatch(s[1..]);
      assert s[1..][|rest|..] == s[|rest| + 1..];
      assert s[..|rest| + 1] == [s[0]] + s[1..][..|rest|];
      forall p | 0 <= p < |rest| + 1
        ensures !ZeroTailAt(s[p..])
      {
        if p > 0 {
          assert s[p..] == s[1..][p - 1..];
        }
      }
    }
  }

  lemma {:induction false} ZeroRunSuffix(a: string, b: string)
    requires ZeroRun(a + b) && |b| > 0
    ensures ZeroRun(b)
  {
    if |a| > 0 {
      assert (a + b)[1..] == a[1..] + b;
      ZeroRunSuffix(a[1..], b);
    } else {
      assert a + b == b;
    }
  }

  /** A text holding no `.` in front of one starting with `.` is never cut. */
  lemma {:induction false} KeepBeforeDot(a: string, b: string)
    requires '.' !in a
    requires |b| > 0 && b[0] == '.'
    ensures RemoveZeroTail(a + b) == a + RemoveZeroTail(b)
  {
    if |a| == 0 {
      assert a + b == b;
    } else {
      assert !ZeroRun(a + b) by {
        if ZeroRun(a + b) {
          ZeroRunSuffix(a, b);
        }
      }
      assert (a + b)[0] == a[0] != '.';
      assert (a + b)[1..] == a[1..] + b;
      KeepBeforeDot(a[1..], b);
      assert a == [a[0]] + a[1..];
    }
  }

  /** The digits of a fraction form a run of zeros exactly when the fraction
      is nonempty and all zero. */
  lemma {:induction false} ZeroRunDigits(ds: seq<nat>)
    requires AllBelowTen(ds)
    ensures ZeroRun(DigitsToString(ds)) <==> |ds| > 0 && AllZero(ds)
  {
    if |ds| > 0 {
      var s := DigitsToString(ds);
      assert s[1..] == DigitsToString(ds[1..]);
      assert s[0] == DigitChar(ds[0]);
      ZeroRunDigits(ds[1..]);
    }
  }

  /** On the digits of a fraction the cut is `TrimZeros`. */
  lemma {:induction false} RemoveZeroTailDigits(ds: seq<nat>)
    requires AllBelowTen(ds)
    ensures RemoveZeroTail(DigitsToString(ds)) == DigitsToString(TrimZeros(ds))
  {
    ZeroRunDigits(ds);
    if |ds| > 0 && !AllZero(ds) {
      var s := DigitsToString(ds);
      assert s[1..] == DigitsToString(ds[1..]);
      RemoveZeroTailDigits(ds[1..]);
      var t := TrimZeros(ds);
      assert t[0] == ds[0] && t[1..] == TrimZeros(ds[1..]);
      assert DigitsToString(t) == [DigitChar(ds[0])] + DigitsToString(t[1..]);
    }
  }

  /** Stripping a text with a fractional part gives the text of the same
      number with its trailing zero decimals dropped, and no decimal point
      when none remain ("-0.000" becomes "-0", "123.450" becomes "123.45"). */
  lemma StripFixed(f: Fixed)
    requires ValidFixed(f) && |f.fraction| > 0
    ensures RemoveZeroTail(FixedText(f)) == FixedText(f.(fraction := TrimZeros(f.fraction)))
  {
    var a := SignText(f.negative) + NatToString(f.whole);
    var d := DigitsToString(f.fraction);
    assert '.' !in a by {
      assert forall i :: 0 <= i < |NatToString(f.whole)| ==> NatToString(f.whole)[i] != '.' by {
        forall i | 0 <= i < |NatToString(f.whole)| {
          AllDigitsAt(NatToString(f.whole), i);
        }
      }
    }
    assert FixedText(f) == a + ("." + d);
    KeepBeforeDot(a, "." + d);
    ZeroRunDigits(f.fraction);
    RemoveZeroTailDigits(f.fraction);
    assert ("." + d)[1..] == d;
    if !AllZero(f.fraction) {
      assert !ZeroTailAt("." + d);
      assert RemoveZeroTail("." + d) == "." + RemoveZeroTail(d);
    }
  }

  /** Stripping never changes the number shown. */
  lemma StripKeepsValue(f: Fixed)
    ensures FixedValue(f.(fraction := TrimZeros(f.fraction))) == FixedValue(f)
  {
    FracValueTrimZeros(f.fraction);
  }

  // ---------------------------------------------------------------------
  // The SI prefix table.

  const LargePrefixes: seq<string> := ["k", "M", "G", "T", "P", "E"]
  const SmallPrefixes: seq<string> := ["m", "\U{B5}", "n", "p", "f", "a"]
  const UnknownPrefix: string := "?"

  /** The prefix for a power of one thousand: none for 0, the table entry
      for 1 to 6 and -1 to -6, and "?" beyond the table. Every prefix is a
      single plain character. */
  function Prefix(magnitude: int): (p: string)
    ensures |p| == (if magnitude == 0 then 0 else 1)
    ensures Esc !in p
  {
    if magnitude == 0 then ""
    else
      var prefixes := if magnitude > 0 then LargePrefixes else SmallPrefixes;
      var index := (if magnitude > 0 then magnitude else -magnitude) - 1;
      if index < |prefixes| then prefixes[index] else UnknownPrefix
  }

  /** The power of ten each SI prefix stands for, as the SI brochure
      defines them; `None` for anything that is not a prefix. */
  function SiExponent(p: string): Option<int> {
    if p == "" then Some(0)
    else if p == "k" then Some(3) else if p == "M" then Some(6)
    else if p == "G" then Some(9) else if p == "T" then Some(12)
    else if p == "P" then Some(15) else if p == "E" then Some(18)
    else if p == "m" then Some(-3) else if p == "\U{B5}" then Some(-6)
    else if p == "n" then Some(-9) else if p == "p" then Some(-12)
    else if p == "f" then Some(-15) else if p == "a" then Some(-18)
    else None
  }

  /** The table is ordered: magnitude `m` within it gets the prefix for
      `10^(3m)`; beyond it the marker "?" stands for no known prefix. */
  lemma PrefixMeaning(magnitude: int)
    ensures -6 <= magnitude <= 6 ==> SiExponent(Prefix(magnitude)) == Some(3 * magnitude)
    ensures (magnitude < -6 || magnitude > 6) <==> Prefix(magnitude) == UnknownPrefix
    ensures SiExponent(UnknownPrefix) == None
    ensures Prefix(magnitude) == "" <==> magnitude == 0
  {
  }

  // ---------------------------------------------------------------------
  // Composition.

  /** The printed number: trailing zeros are removed only when decimals were
      asked for. */
  function NumberText(number: Fixed, precision: nat): string
    requires ValidFixed(number) && |number.fraction| == precision
  {
    if precision > 0 then RemoveZeroTail(FixedText(number)) else FixedText(number)
  }

  /** `format_quantity` once the float core has chosen `magnitude` and
      rounded the scaled quantity to `number`. */
  function FormatQuantity(number: Fixed, magnitude: int, unit: string, precision: nat,
                          numberStyle: string, unitStyle: string): string
    requires ValidFixed(number) && |number.fraction| == precision
  {
    numberStyle + NumberText(number, precision) + unitStyle + Prefix(magnitude) + unit
  }

  /** The printed number is the rounded number with its trailing zero
      decimals dropped, so it denotes the same value. */
  lemma NumberTextValue(number: Fixed, precision: nat)
    requires ValidFixed(number) && |number.fraction| == precision
    ensures NumberText(number, precision)
         == FixedText(number.(fraction := TrimZeros(number.fraction)))
    ensures FixedValue(number.(fraction := TrimZeros(number.fraction))) == FixedValue(number)
  {
    if precision > 0 {
      StripFixed(number);
    } else {
      assert TrimZeros(number.fraction) == [];
      assert number.(fraction := TrimZeros(number.fraction)) == number;
    }
    StripKeepsValue(number);
  }

  lemma FixedTextLength(f: Fixed)
    requires ValidFixed(f)
    ensures |FixedText(f)| == (if f.negative then 1 else 0) + |NatToString(f.whole)|
                               + (if |f.fraction| > 0 then 1 + |f.fraction| else 0)
    ensures Esc !in FixedText(f)
  {
    var w := NatToString(f.whole);
    assert Esc !in w by {
      forall i | 0 <= i < |w| {
        AllDigitsAt(w, i);
      }
    }
    if |f.fraction| > 0 {
      var d := DigitsToString(f.fraction);
      assert Esc !in d by {
        forall i | 0 <= i < |d| {
          AllDigitsAt(d, i);
        }
      }
    }
  }

  /** The number text is no longer than the rounded number and holds no
      escape character. */
  lemma NumberTextLength(number: Fixed, precision: nat)
    requires ValidFixed(number) && |number.fraction| == precision
    ensures |NumberText(number, precision)| <= |FixedText(number)|
    ensures Esc !in NumberText(number, precision)
  {
    FixedTextLength(number);
    if precision > 0 {
      RemoveZeroTailIsLeftmostMatch(FixedText(number));
      var r := NumberText(number, precision);
      assert forall i :: 0 <= i < |r| ==> r[i] == FixedText(number)[i];
    }
  }

  lemma StyledQuantityAppend(ns: string, t: string, us: string, p: string, unit: string)
    ensures ns + t + us + p + unit == ns + (t + (us + (p + unit)))
  {
  }

  /** With SGR styles the printed width is the number, the prefix and the
      unit's own printed width. */
  lemma QuantityWidth(number: Fixed, magnitude: int, unit: string, precision: nat,
                      numberStyle: string, unitStyle: string)
    requires ValidFixed(number) && |number.fraction| == precision
    requires IsSgr(numberStyle) && IsSgr(unitStyle)
    ensures PrintedWidth(FormatQuantity(number, magnitude, unit, precision, numberStyle, unitStyle))
         == |NumberText(number, precision)| + |Prefix(magnitude)| + PrintedWidth(unit)
  {
    var t := NumberText(number, precision);
    var p := Prefix(magnitude);
    NumberTextLength(number, precision);
    StyledQuantityAppend(numberStyle, t, unitStyle, p, unit);
    PrependPlain(p, unit);
    PrependSgr(unitStyle, p + unit);
    PrependPlain(t, unitStyle + (p + unit));
    PrependSgr(numberStyle, t + (unitStyle + (p + unit)));
  }

  // ---------------------------------------------------------------------
  // The cases the unit test of `format_quantity` pins down, with number
  // style "A", unit style "B" and unit "C". Each input is what the float
  // core computes for the test's quantity: for 0.9999 without decimals the
  // scaled 999.9 rounds to "1000", so the magnitude is raised from -1 to 0
  // and the number becomes 1.

  lemma QuantityExamplesWhole()
    ensures FormatQuantity(Fixed(false, 0, []), 0, "C", 0, "A", "B") == "A0BC"
    ensures FormatQuantity(Fixed(false, 1, []), -1, "C", 0, "A", "B") == "A1BmC"
    ensures FormatQuantity(Fixed(false, 999, []), -1, "C", 0, "A", "B") == "A999BmC"
    ensures FormatQuantity(Fixed(false, 1, []), 0, "C", 0, "A", "B") == "A1BC"
    ensures FormatQuantity(Fixed(false, 999, []), 0, "C", 0, "A", "B") == "A999BC"
    ensures FormatQuantity(Fixed(false, 1, []), 1, "C", 0, "A", "B") == "A1BkC"
    ensures FormatQuantity(Fixed(false, 1, []), 2, "C", 0, "A", "B") == "A1BMC"
  {
    assert NatToString(999) == "999";
  }

  /** 10^100 and 10^-100 lie beyond the table. */
  lemma QuantityExamplesUnknown()
    ensures FormatQuantity(Fixed(false, 10, []), 33, "C", 0, "A", "B") == "A10B?C"
    ensures FormatQuantity(Fixed(false, 100, []), -34, "C", 0, "A", "B") == "A100B?C"
  {
    assert NatToString(10) == "10";
    assert NatToString(100) == "100";
  }

  lemma RoundedNumberText()
    ensures NumberText(Fixed(false, 123, [4, 5, 7]), 3) == "123.457"
  {
    var f := Fixed(false, 123, [4, 5, 7]);
    NumberTextValue(f, 3);
    KeptDecimals();
    assert f.(fraction := TrimZeros(f.fraction)) == f;
    WholeText();
    assert FixedText(f) == "" + "123" + ("." + "457");
  }

  lemma KeptDecimals()
    ensures TrimZeros([4, 5, 7]) == [4, 5, 7]
    ensures DigitsToString([4, 5, 7]) == "457"
  {
    assert [4, 5, 7][1..] == [5, 7];
    assert [5, 7][1..] == [7];
  }

  lemma WholeText()
    ensures NatToString(123) == "123"
  {
    assert NatToString(12) == "12";
  }

  /** Whatever the whole part, three zero decimals are stripped together
      with the point (the test's 123 456 789 without prefix prints as its
      digits alone). */
  lemma ZeroDecimalsText(negative: bool, whole: nat)
    ensures NumberText(Fixed(negative, whole, [0, 0, 0]), 3) == SignText(negative) + NatToString(whole)
  {
    NumberTextValue(Fixed(negative, whole, [0, 0, 0]), 3);
    assert TrimZeros([0, 0, 0]) == [];
  }

  lemma NegativeNumberText()
    ensures NumberText(Fixed(true, 1, [2, 3, 5]), 3) == "-1.235"
  {
    NumberTextValue(Fixed(true, 1, [2, 3, 5]), 3);
    assert TrimZeros([2, 3, 5]) == [2, 3, 5];
  }

  /** 123 456 789 with three decimals and a prefix. */
  lemma QuantityExamplePrefixed()
    ensures FormatQuantity(Fixed(false, 123, [4, 5, 7]), 2, "C", 3, "A", "B") == "A123.457BMC"
  {
    RoundedNumberText();
  }

  /** -1.23456789e-9 with three decimals, with and without prefix. */
  lemma QuantityExamplesNegative()
    ensures FormatQuantity(Fixed(true, 1, [2, 3, 5]), -3, "C", 3, "A", "B") == "A-1.235BnC"
    ensures FormatQuantity(Fixed(true, 0, [0, 0, 0]), 0, "C", 3, "A", "B") == "A-0BC"
  {
    NegativeNumberText();
    ZeroDecimalsText(true, 0);
  }
}
