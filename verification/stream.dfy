/** The stream contract (src/stream.rs): `Stream::new` builds a
    `SimpleStream` whose values are formatted as quantities and whose
    declared format width bounds every formatted value it can show. The
    sampling closure is not part of the record: samples are passed to the
    model from outside. */
module Stream {
  import opened Wrappers
  import opened Decimal
  import opened Printed
  import opened Quantity

  /** What the constructor fixes once: the trait's accessors return these
      values on every call. */
  datatype SimpleStream = SimpleStream(
    name: string,
    description: string,
    min: Option<real>,
    max: Option<real>,
    unit: string,
    usePrefix: bool,
    precision: nat,
    formatWidth: nat)

  /** Integer digits assumed for streams that print with an SI prefix: a
      prefixed number stays below one thousand. */
  const PrefixedDigits: nat := 3

  /** `Stream::new`. A stream that gives no count of integer digits prints
      with SI prefixes. */
  function NewStream(name: string, description: string, min: Option<real>, max: Option<real>,
                     unit: string, digitsBeforeDecimal: Option<nat>, precision: nat,
                     signed: bool): (s: SimpleStream)
    ensures s.usePrefix <==> digitsBeforeDecimal.None?
    ensures s.name == name && s.description == description
    ensures s.min == min && s.max == max
    ensures s.unit == unit && s.precision == precision
  {
    var usePrefix := digitsBeforeDecimal.None?;
    SimpleStream(name, description, min, max, unit, usePrefix, precision,
      (if signed then 1 else 0)
      + digitsBeforeDecimal.GetOr(PrefixedDigits)
      + (if precision > 0 then 1 + precision else 0)
      + (if usePrefix then 1 else 0)
      + PrintedWidth(unit))
  }

  /** The stream's `format`: `format_quantity` with its unit, prefix choice
      and precision. The float core that scales and rounds the value is not
      modelled; `magnitude` and `number` are its results, and a stream
      without prefixes always gets magnitude 0. */
  function Format(s: SimpleStream, number: Fixed, magnitude: int,
                  numberStyle: string, unitStyle: string): string
    requires ValidFixed(number) && |number.fraction| == s.precision
  {
    FormatQuantity(number, if s.usePrefix then magnitude else 0, s.unit, s.precision,
                   numberStyle, unitStyle)
  }

  /** The values a stream may produce: signed only if the stream said so,
      with no more integer digits than it declared (three for prefixed
      streams). A positive scaled value that rounds to 1000 moves to the
      next prefix, but the carry test of `format_quantity` looks for a
      leading "1000" and so misses "-1000": a negative prefixed value can
      print four integer digits, and is outside these values. */
  predicate Fits(number: Fixed, digitsBeforeDecimal: Option<nat>, precision: nat, signed: bool) {
    ValidFixed(number)
    && |number.fraction| == precision
    && (number.negative ==> signed)
    && number.whole < Pow10(digitsBeforeDecimal.GetOr(PrefixedDigits))
  }

  /** The declared width bounds the printed width of every value that fits
      the stream's declaration, whatever SGR styles the theme uses: the
      promise the trait documents for `format_width`. */
  lemma FormatWithinWidth(name: string, description: string, min: Option<real>, max: Option<real>,
                          unit: string, digitsBeforeDecimal: Option<nat>, precision: nat,
                          signed: bool, number: Fixed, magnitude: int,
                          numberStyle: string, unitStyle: string)
    requires Fits(number, digitsBeforeDecimal, precision, signed)
    requires digitsBeforeDecimal != Some(0)
    requires IsSgr(numberStyle) && IsSgr(unitStyle)
    ensures var s := NewStream(name, description, min, max, unit, digitsBeforeDecimal, precision, signed);
            PrintedWidth(Format(s, number, magnitude, numberStyle, unitStyle)) <= s.formatWidth
  {
    var s := NewStream(name, description, min, max, unit, digitsBeforeDecimal, precision, signed);
    var m := if s.usePrefix then magnitude else 0;
    QuantityWidth(number, m, unit, precision, numberStyle, unitStyle);
    NumberTextLength(number, precision);
    FixedTextLength(number);
    NatToStringLength(number.whole, digitsBeforeDecimal.GetOr(PrefixedDigits));
  }

  /** A signed prefixed stream of precision 0 given -999600: the scaled
      value -999.6 rounds to "-1000", the carry test misses it, and "-1000k"
      takes one column more than the declared width. */
  lemma NegativeCarryOverflows(name: string, description: string, min: Option<real>, max: Option<real>,
                               unit: string, numberStyle: string, unitStyle: string)
    requires IsSgr(numberStyle) && IsSgr(unitStyle)
    ensures var s := NewStream(name, description, min, max, unit, None, 0, true);
            !Fits(Fixed(true, 1000, []), None, 0, true)
            && PrintedWidth(Format(s, Fixed(true, 1000, []), 1, numberStyle, unitStyle)) == s.formatWidth + 1
  {
    var n := Fixed(true, 1000, []);
    QuantityWidth(n, 1, unit, 0, numberStyle, unitStyle);
    NegativeThousandText();
  }

  lemma NegativeThousandText()
    ensures |NumberText(Fixed(true, 1000, []), 0)| == 5
  {
    ThousandDigits();
    assert FixedText(Fixed(true, 1000, [])) == "-" + "1000" + "";
  }

  lemma ThousandDigits()
    ensures NatToString(1000) == "1000"
  {
    assert NatToString(10) == "10";
    assert NatToString(100) == "100";
  }

  /** The network bandwidth streams (src/providers/network.rs): bytes per
      second with a prefix, one decimal, never negative. */
  function BandwidthStream(name: string, description: string): SimpleStream {
    NewStream(name, description, Some(0.0), None, "B", None, 1, false)
  }

  /** Their values take at most seven columns, "999.9kB" for instance. */
  lemma BandwidthStreamWidth(name: string, description: string)
    ensures BandwidthStream(name, description).formatWidth == 7
    ensures BandwidthStream(name, description).usePrefix
  {
    PlainText("B");
  }
}
