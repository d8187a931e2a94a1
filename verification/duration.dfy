/** Durations as the time axis and the bottom bar print them
    (src/view.rs `format_duration`): hours and minutes as integers, then the
    seconds as Rust prints an `f64`, each number preceded by a number style
    and each unit letter by a unit style. */
module Duration {
  import opened Wrappers
  import opened Decimal
  import opened Printed

  const HourMs: nat := 3_600_000
  const MinuteMs: nat := 60_000
  const SecondMs: nat := 1000

  /** The three decimals of a millisecond count below one second. */
  function Millis3(f: nat): (ds: seq<nat>)
    requires f < 1000
    ensures |ds| == 3 && AllBelowTen(ds)
  {
    [f / 100, (f / 10) % 10, f % 10]
  }

  /** `ms / 1000` as an `f64` displays: integer seconds, then the nonzero
      millisecond decimals. Below a minute (the only case the formatter
      reaches) the shortest round-trip text of the float is this exact
      decimal. */
  function SecondsText(ms: nat): string {
    var whole := NatToString(ms / SecondMs);
    if ms % SecondMs == 0 then whole
    else whole + "." + DigitsToString(TrimZeros(Millis3(ms % SecondMs)))
  }

  function Component(numberStyle: string, amount: string, unitStyle: string, unit: char): string {
    numberStyle + amount + unitStyle + [unit]
  }

  /** The hours component and what remains after it. */
  function HourPart(ms: nat, numberStyle: string, unitStyle: string): (string, nat) {
    if ms >= HourMs then (Component(numberStyle, NatToString(ms / HourMs), unitStyle, 'h'), ms % HourMs)
    else ("", ms)
  }

  /** The minutes component and what remains after it. */
  function MinutePart(ms: nat, numberStyle: string, unitStyle: string): (string, nat) {
    if ms >= MinuteMs then (Component(numberStyle, NatToString(ms / MinuteMs), unitStyle, 'm'), ms % MinuteMs)
    else ("", ms)
  }

  function SecondPart(ms: nat, numberStyle: string, unitStyle: string): string {
    if ms > 0 then Component(numberStyle, SecondsText(ms), unitStyle, 's') else ""
  }

  /** The minutes and seconds components of what is left after the hours. */
  function AfterHours(ms: nat, numberStyle: string, unitStyle: string): string {
    MinutePart(ms, numberStyle, unitStyle).0 + SecondPart(MinutePart(ms, numberStyle, unitStyle).1, numberStyle, unitStyle)
  }

  /** `format_duration` over the duration's whole milliseconds. */
  function FormatDuration(ms: nat, numberStyle: string, unitStyle: string): string {
    if ms == 0 then
      Component(numberStyle, "0", unitStyle, 's')
    else
      HourPart(ms, numberStyle, unitStyle).0 + AfterHours(HourPart(ms, numberStyle, unitStyle).1, numberStyle, unitStyle)
  }

  // ---------------------------------------------------------------------
  // A reader for the plain text (empty styles), used to state that the
  // printed components always add up to the duration.

  predicate IsUnit(c: char) {
    c == 'h' || c == 'm' || c == 's'
  }

  /** `v` units of `c`, in milliseconds. */
  function InMs(v: real, c: char): real
    requires IsUnit(c)
  {
    if c == 'h' then v * 3_600_000.0 else if c == 'm' then v * 60_000.0 else v * 1000.0
  }

  /** Index of the first unit letter, `|s|` if there is none. */
  function FirstUnit(s: string): (k: nat)
    ensures k <= |s|
    ensures k < |s| ==> IsUnit(s[k])
  {
    if |s| == 0 || IsUnit(s[0]) then 0 else 1 + FirstUnit(s[1..])
  }

  /** Index of the first `c`, `|s|` if there is none. */
  function IndexOf(s: string, c: char): (k: nat)
    ensures k <= |s|
    ensures k < |s| ==> s[k] == c
  {
    if |s| == 0 || s[0] == c then 0 else 1 + IndexOf(s[1..], c)
  }

  /** `digits` or `digits.digits`. */
  function ParseNumber(s: string): Option<real> {
    var k := IndexOf(s, '.');
    if k == |s| then
      if |s| > 0 && AllDigits(s) then Some(ParseDigits(s) as real) else None
    else
      var w, f := s[..k], s[k + 1..];
      if |w| > 0 && |f| > 0 && AllDigits(w) && AllDigits(f) then Some(ParseDigits(w) as real + FracValue(Values(f)))
      else None
  }

  /** Milliseconds denoted by a sequence of `<number><h|m|s>` components. */
  function ParseDuration(s: string): Option<real>
    decreases |s|
  {
    if |s| == 0 then Some(0.0)
    else
      var k := FirstUnit(s);
      if k == |s| then None
      else
        var v, rest := ParseNumber(s[..k]), ParseDuration(s[k + 1..]);
        if v.Some? && rest.Some? then Some(InMs(v.value, s[k]) + rest.value) else None
  }

  predicate NumberText(s: string) {
    |s| == 0 || ((IsDigit(s[0]) || s[0] == '.') && NumberText(s[1..]))
  }

  /** Text holding neither a unit letter nor an escape character. */
  predicate Plain(s: string) {
    FirstUnit(s) == |s| && Esc !in s
  }

  lemma {:induction false} NumberIsPlain(s: string)
    requires NumberText(s)
    ensures Plain(s)
  {
    if |s| > 0 {
      NumberIsPlain(s[1..]);
      assert s == [s[0]] + s[1..];
    }
  }

  lemma {:induction false} DigitsAreNumber(s: string)
    requires AllDigits(s)
    ensures NumberText(s)
  {
    if |s| > 0 {
      DigitsAreNumber(s[1..]);
    }
  }

  lemma {:induction false} NumberTextConcat(a: string, b: string)
    requires NumberText(a) && NumberText(b)
    ensures NumberText(a + b)
  {
    if |a| == 0 {
      assert a + b == b;
    } else {
      assert (a + b)[1..] == a[1..] + b;
      NumberTextConcat(a[1..], b);
    }
  }

  lemma {:induction false} FirstUnitConcat(a: string, u: char, b: string)
    requires FirstUnit(a) == |a| && IsUnit(u)
    ensures FirstUnit(a + [u] + b) == |a|
    decreases |a|
  {
    if |a| > 0 {
      assert (a + [u] + b)[1..] == a[1..] + [u] + b;
      FirstUnitConcat(a[1..], u, b);
    }
  }

  lemma ParseComponent(num: string, u: char, rest: string, v: real, r: real)
    requires FirstUnit(num) == |num| && IsUnit(u)
    requires ParseNumber(num) == Some(v) && ParseDuration(rest) == Some(r)
    ensures ParseDuration(num + [u] + rest) == Some(InMs(v, u) + r)
  {
    var s := num + [u] + rest;
    FirstUnitConcat(num, u, rest);
    var k := FirstUnit(s);
    assert s[..k] == num;
    assert s[k + 1..] == rest;
    assert s[k] == u;
  }

  lemma ParseNatText(n: nat)
    ensures Plain(NatToString(n))
    ensures ParseNumber(NatToString(n)) == Some(n as real)
  {
    var s := NatToString(n);
    DigitsAreNumber(s);
    NumberIsPlain(s);
    NoDot(s);
  }

  lemma {:induction false} NoDot(s: string)
    requires AllDigits(s)
    ensures IndexOf(s, '.') == |s|
  {
    if |s| > 0 {
      NoDot(s[1..]);
    }
  }

  lemma Millis3Value(f: nat)
    requires f < 1000
    ensures FracValue(Millis3(f)) == f as real / 1000.0
  {
    var ds := Millis3(f);
    assert ds[1..][1..][1..] == [];
    assert FracValue(ds[1..][1..]) == (ds[2] as real) / 10.0;
    assert FracValue(ds[1..]) == (ds[1] as real + ds[2] as real / 10.0) / 10.0;
    assert f == 100 * ds[0] + 10 * ds[1] + ds[2];
  }

  lemma {:induction false} IndexOfDot(w: string, d: string)
    requires AllDigits(w)
    ensures IndexOf(w + "." + d, '.') == |w|
  {
    if |w| > 0 {
      assert (w + "." + d)[1..] == w[1..] + "." + d;
      IndexOfDot(w[1..], d);
    }
  }

  lemma ParseSplitNumber(s: string, k: nat, w: string, d: string)
    requires IndexOf(s, '.') == k < |s|
    requires s[..k] == w && s[k + 1..] == d
    requires 0 < |w| && AllDigits(w)
    requires 0 < |d| && AllDigits(d)
    ensures ParseNumber(s) == Some(ParseDigits(w) as real + FracValue(Values(d)))
  {
  }

  lemma ParseDecimalText(w: string, d: string)
    requires 0 < |w| && AllDigits(w)
    requires 0 < |d| && AllDigits(d)
    ensures ParseNumber(w + "." + d) == Some(ParseDigits(w) as real + FracValue(Values(d)))
  {
    var s := w + "." + d;
    IndexOfDot(w, d);
    assert s[..|w|] == w;
    assert s[|w| + 1..] == d;
    ParseSplitNumber(s, |w|, w, d);
  }

  /** The fractional text of a millisecond count that is not a whole second. */
  lemma FractionText(f: nat)
    requires 0 < f < 1000
    ensures 0 < |TrimZeros(Millis3(f))|
    ensures FracValue(TrimZeros(Millis3(f))) == f as real / 1000.0
  {
    var ms := Millis3(f);
    assert ms[1..][1..] == [ms[2]];
    FracValueTrimZeros(Millis3(f));
    Millis3Value(f);
  }

  lemma SecondsTextPlain(ms: nat)
    ensures Plain(SecondsText(ms))
  {
    var w := NatToString(ms / SecondMs);
    DigitsAreNumber(w);
    if ms % SecondMs != 0 {
      var d := DigitsToString(TrimZeros(Millis3(ms % SecondMs)));
      DigitsAreNumber(d);
      assert NumberText(".");
      NumberTextConcat(w, ".");
      NumberTextConcat(w + ".", d);
      assert SecondsText(ms) == w + "." + d;
    }
    NumberIsPlain(SecondsText(ms));
  }

  lemma ParseSecondsText(ms: nat)
    ensures ParseNumber(SecondsText(ms)) == Some(ms as real / 1000.0)
  {
    var q := ms / SecondMs;
    var f := ms % SecondMs;
    SecondsSum(q, f, ms);
    if f == 0 {
      ParseNatText(q);
    } else {
      ParseFraction(q, f);
    }
  }

  /** `q` seconds and `f` milliseconds, in seconds. */
  lemma SecondsSum(q: nat, f: nat, ms: nat)
    requires ms == 1000 * q + f
    ensures q as real + f as real / 1000.0 == ms as real / 1000.0
  {
  }

  lemma ParseFraction(q: nat, f: nat)
    requires 0 < f < 1000
    ensures ParseNumber(NatToString(q) + "." + DigitsToString(TrimZeros(Millis3(f))))
            == Some(q as real + f as real / 1000.0)
  {
    var ds := TrimZeros(Millis3(f));
    FractionText(f);
    ValuesOfDigits(ds);
    ParseDecimalText(NatToString(q), DigitsToString(ds));
    ParseNatText(q);
  }

  lemma ParseSecondPart(ms: nat)
    ensures ParseDuration(SecondPart(ms, "", "")) == Some(ms as real)
  {
    if ms > 0 {
      ParseSecondsText(ms);
      SecondsTextPlain(ms);
      assert SecondPart(ms, "", "") == SecondsText(ms) + ['s'] + "";
      ParseComponent(SecondsText(ms), 's', "", ms as real / 1000.0, 0.0);
    }
  }

  /** `q` units plus `r` milliseconds, as the reader adds them up. */
  lemma UnitSum(q: nat, u: char, r: nat, total: nat)
    requires u == 'h' || u == 'm'
    requires total == (if u == 'h' then HourMs else MinuteMs) * q + r
    ensures InMs(q as real, u) + r as real == total as real
  {
  }

  /** A whole number of hours or minutes followed by text that reads back as
      `r` milliseconds reads back as `total`, their sum. */
  lemma ParseUnits(num: string, q: nat, u: char, rest: string, r: nat, total: nat)
    requires FirstUnit(num) == |num| && ParseNumber(num) == Some(q as real)
    requires ParseDuration(rest) == Some(r as real)
    requires u == 'h' || u == 'm'
    requires total == (if u == 'h' then HourMs else MinuteMs) * q + r
    ensures ParseDuration(num + [u] + rest) == Some(total as real)
  {
    ParseComponent(num, u, rest, q as real, r as real);
    UnitSum(q, u, r, total);
  }

  lemma ParseWholeUnits(q: nat, u: char, rest: string, r: nat, total: nat)
    requires ParseDuration(rest) == Some(r as real)
    requires u == 'h' || u == 'm'
    requires total == (if u == 'h' then HourMs else MinuteMs) * q + r
    ensures ParseDuration(NatToString(q) + [u] + rest) == Some(total as real)
  {
    ParseNatText(q);
    ParseUnits(NatToString(q), q, u, rest, r, total);
  }

  /** A component without styles is the amount and the unit letter. */
  lemma PlainComponent(amount: string, u: char)
    ensures Component("", amount, "", u) == amount + [u]
  {
  }

  /** The text after the hours, when there is at least a minute. */
  lemma AfterHoursShape(x: nat, ns: string, us: string)
    requires x >= MinuteMs
    ensures AfterHours(x, ns, us) == Component(ns, NatToString(x / MinuteMs), us, 'm') + SecondPart(x % MinuteMs, ns, us)
  {
  }

  /** The text after the hours, when less than a minute is left. */
  lemma ShortAfterHoursShape(x: nat, ns: string, us: string)
    requires x < MinuteMs
    ensures AfterHours(x, ns, us) == SecondPart(x, ns, us)
  {
    assert MinutePart(x, ns, us) == ("", x);
    EmptyPrefix(SecondPart(x, ns, us));
  }

  /** What follows the hours reads back as the milliseconds left after them. */
  lemma ParseAfterHours(x: nat)
    ensures ParseDuration(AfterHours(x, "", "")) == Some(x as real)
  {
    if x >= MinuteMs {
      AfterHoursShape(x, "", "");
      PlainComponent(NatToString(x / MinuteMs), 'm');
      ParseSecondPart(x % MinuteMs);
      ParseWholeUnits(x / MinuteMs, 'm', SecondPart(x % MinuteMs, "", ""), x % MinuteMs, x);
    } else {
      ShortAfterHoursShape(x, "", "");
      ParseSecondPart(x);
    }
  }

  /** A zero duration reads back as zero. */
  lemma ParseZero()
    ensures ParseDuration(FormatDuration(0, "", "")) == Some(0.0)
  {
    ParseNatText(0);
    assert FormatDuration(0, "", "") == "0" + ['s'] + "";
    ParseComponent("0", 's', "", 0.0, 0.0);
  }

  /** The text of at least an hour. */
  lemma HoursShape(ms: nat, ns: string, us: string)
    requires ms >= HourMs
    ensures FormatDuration(ms, ns, us) == Component(ns, NatToString(ms / HourMs), us, 'h') + AfterHours(ms % HourMs, ns, us)
  {
  }

  /** The text of a nonzero duration below an hour. */
  lemma ShortShape(ms: nat, ns: string, us: string)
    requires 0 < ms < HourMs
    ensures FormatDuration(ms, ns, us) == AfterHours(ms, ns, us)
  {
    assert HourPart(ms, ns, us) == ("", ms);
    EmptyPrefix(AfterHours(ms, ns, us));
  }

  lemma EmptyPrefix(x: string)
    ensures "" + x == x
  {
  }

  lemma ParseHours(ms: nat)
    requires ms >= HourMs
    ensures ParseDuration(FormatDuration(ms, "", "")) == Some(ms as real)
  {
    var q, r := ms / HourMs, ms % HourMs;
    HoursShape(ms, "", "");
    PlainComponent(NatToString(q), 'h');
    ParseAfterHours(r);
    ParseWholeUnits(q, 'h', AfterHours(r, "", ""), r, ms);
  }

  lemma ParseShort(ms: nat)
    requires 0 < ms < HourMs
    ensures ParseDuration(FormatDuration(ms, "", "")) == Some(ms as real)
  {
    ShortShape(ms, "", "");
    ParseAfterHours(ms);
  }

  /** Reading back the plain text gives the duration: the printed
      components (hours, minutes left over, seconds left over) always sum
      to the input, and no nonzero part is dropped. */
  lemma DurationRoundTrip(ms: nat)
    ensures ParseDuration(FormatDuration(ms, "", "")) == Some(ms as real)
  {
    if ms == 0 {
      ParseZero();
    } else if ms >= HourMs {
      ParseHours(ms);
    } else {
      ParseShort(ms);
    }
  }

  // ---------------------------------------------------------------------
  // Which components appear.

  lemma HourSplit(ms: nat, h: nat, x: nat)
    requires ms == h * 3_600_000 + x && x < 3_600_000
    ensures ms / HourMs == h && ms % HourMs == x
  {
  }

  lemma MinuteSplit(x: nat, m: nat, s: nat)
    requires x == m * 60_000 + s && s < 60_000
    ensures x / MinuteMs == m && x % MinuteMs == s
  {
  }

  lemma MinutesBelowHour(m: nat, s: nat)
    requires m < 60 && s < 60_000
    ensures m * 60_000 + s < 3_600_000
  {
  }

  /** The hours component of `h` hours and `x` milliseconds below an hour:
      present exactly when `h` is positive. */
  lemma HourPartOf(ms: nat, h: nat, x: nat, ns: string, us: string)
    requires ms == h * HourMs + x && x < HourMs
    ensures HourPart(ms, ns, us) == (if h > 0 then Component(ns, NatToString(h), us, 'h') else "", x)
  {
    HourSplit(ms, h, x);
  }

  /** The minutes component of `m` minutes and `s` milliseconds below a
      minute: present exactly when `m` is positive. */
  lemma MinutePartOf(x: nat, m: nat, s: nat, ns: string, us: string)
    requires x == m * MinuteMs + s && s < MinuteMs
    ensures MinutePart(x, ns, us) == (if m > 0 then Component(ns, NatToString(m), us, 'm') else "", s)
  {
    MinuteSplit(x, m, s);
  }

  /** Any split of a duration into hours, fewer than sixty minutes and less
      than a minute left over gives its label: the hours, minutes and
      seconds components in this order, each present exactly when its
      amount is positive, and "0s" for a zero duration. So every printed
      amount is positive, minutes stay below 60 and seconds below 60. */
  lemma DurationParts(ms: nat, h: nat, m: nat, s: nat, ns: string, us: string)
    requires ms == h * HourMs + m * MinuteMs + s && m < 60 && s < MinuteMs
    ensures FormatDuration(ms, ns, us) ==
              if ms == 0 then Component(ns, "0", us, 's')
              else (if h > 0 then Component(ns, NatToString(h), us, 'h') else "")
                   + (if m > 0 then Component(ns, NatToString(m), us, 'm') else "")
                   + (if s > 0 then Component(ns, SecondsText(s), us, 's') else "")
  {
    if ms > 0 {
      var x := m * MinuteMs + s;
      MinutesBelowHour(m, s);
      HourPartOf(ms, h, x, ns, us);
      MinutePartOf(x, m, s, ns, us);
      var hours := HourPart(ms, ns, us).0;
      var minutes := MinutePart(x, ns, us).0;
      var seconds := SecondPart(s, ns, us);
      assert AfterHours(x, ns, us) == minutes + seconds;
      assert FormatDuration(ms, ns, us) == hours + (minutes + seconds);
    }
  }

  /** Whole seconds below a minute print as an integer. */
  lemma WholeSecondsText(s: nat)
    requires s % SecondMs == 0
    ensures SecondsText(s) == NatToString(s / SecondMs)
  {
  }

  lemma SecondsOfWhole(ms: nat, h: nat, m: nat, s: nat)
    requires ms == h * 3_600_000 + m * 60_000 + s && ms % 1000 == 0
    ensures s % 1000 == 0
  {
    var k := h * 3600 + m * 60;
    assert ms == k * 1000 + s;
    assert ms % 1000 == s % 1000 by {
      ModPlusMultiple(s, k);
    }
  }

  lemma ModPlusMultiple(s: nat, k: nat)
    ensures (k * 1000 + s) % 1000 == s % 1000
  {
  }

  /** A label of whole seconds below a hundred hours takes at most nine
      columns ("99h59m59s"), whatever SGR styles it carries. */
  lemma WholeSecondsLabelWidth(ms: nat, ns: string, us: string)
    requires IsSgr(ns) && IsSgr(us)
    requires ms % SecondMs == 0 && ms < 100 * HourMs
    ensures PrintedWidth(FormatDuration(ms, ns, us)) <= 9
  {
    StyledDurationWidth(ms, ns, us);
    var h := ms / HourMs;
    var x := ms % HourMs;
    var m := x / MinuteMs;
    var s := x % MinuteMs;
    assert m < 60 && s < MinuteMs && ms == h * HourMs + m * MinuteMs + s;
    DurationParts(ms, h, m, s, "", "");
    SecondsOfWhole(ms, h, m, s);
    NatToStringLength(h, 2);
    NatToStringLength(m, 2);
    WholeSecondsText(s);
    NatToStringLength(s / SecondMs, 2);
  }

  /** Styled components print as wide as the plain text when both styles are
      SGR sequences, so layout can be computed on the plain text. */
  lemma ComponentAppend(ns: string, amount: string, us: string, u: char, rest: string)
    ensures Component(ns, amount, us, u) + rest == ns + (amount + (us + ([u] + rest)))
  {
  }

  lemma StyledComponentWidth(ns: string, amount: string, us: string, u: char, rest: string)
    requires IsSgr(ns) && IsSgr(us)
    requires Esc !in amount && u != Esc
    ensures PrintedWidth(Component(ns, amount, us, u) + rest)
         == |amount| + 1 + PrintedWidth(rest)
  {
    var tail := [u] + rest;
    PrependPlain([u], rest);
    PrependSgr(us, tail);
    PrependPlain(amount, us + tail);
    PrependSgr(ns, amount + (us + tail));
    ComponentAppend(ns, amount, us, u, rest);
  }

  /** A styled component in front of text as wide as `plainRest` is as wide
      as the plain component in front of `plainRest`. */
  lemma StyledUnits(ns: string, amount: string, us: string, u: char, rest: string, plainRest: string)
    requires IsSgr(ns) && IsSgr(us)
    requires Esc !in amount && u != Esc
    requires PrintedWidth(rest) == |plainRest|
    ensures PrintedWidth(Component(ns, amount, us, u) + rest) == |Component("", amount, "", u) + plainRest|
  {
    StyledComponentWidth(ns, amount, us, u, rest);
    PlainComponent(amount, u);
  }

  lemma StyledSecondPart(r: nat, ns: string, us: string)
    requires IsSgr(ns) && IsSgr(us)
    ensures PrintedWidth(SecondPart(r, ns, us)) == |SecondPart(r, "", "")|
  {
    if r > 0 {
      SecondsTextPlain(r);
      PlainText("");
      StyledUnits(ns, SecondsText(r), us, 's', "", "");
      assert SecondPart(r, ns, us) == Component(ns, SecondsText(r), us, 's') + "";
      assert SecondPart(r, "", "") == Component("", SecondsText(r), "", 's') + "";
    } else {
      PlainText("");
    }
  }

  lemma StyledAfterHours(x: nat, ns: string, us: string)
    requires IsSgr(ns) && IsSgr(us)
    ensures PrintedWidth(AfterHours(x, ns, us)) == |AfterHours(x, "", "")|
  {
    if x >= MinuteMs {
      var a := NatToString(x / MinuteMs);
      AfterHoursShape(x, ns, us);
      AfterHoursShape(x, "", "");
      ParseNatText(x / MinuteMs);
      StyledSecondPart(x % MinuteMs, ns, us);
      StyledUnits(ns, a, us, 'm', SecondPart(x % MinuteMs, ns, us), SecondPart(x % MinuteMs, "", ""));
    } else {
      ShortAfterHoursShape(x, ns, us);
      ShortAfterHoursShape(x, "", "");
      StyledSecondPart(x, ns, us);
    }
  }

  lemma StyledHours(ms: nat, ns: string, us: string)
    requires IsSgr(ns) && IsSgr(us)
    requires ms >= HourMs
    ensures PrintedWidth(FormatDuration(ms, ns, us)) == |FormatDuration(ms, "", "")|
  {
    var a := NatToString(ms / HourMs);
    HoursShape(ms, ns, us);
    HoursShape(ms, "", "");
    ParseNatText(ms / HourMs);
    StyledAfterHours(ms % HourMs, ns, us);
    StyledUnits(ns, a, us, 'h', AfterHours(ms % HourMs, ns, us), AfterHours(ms % HourMs, "", ""));
  }

  /** The styled duration is exactly as wide as its plain text, so layout
      can be computed on the plain text. */
  lemma StyledDurationWidth(ms: nat, ns: string, us: string)
    requires IsSgr(ns) && IsSgr(us)
    ensures PrintedWidth(FormatDuration(ms, ns, us)) == |FormatDuration(ms, "", "")|
  {
    if ms == 0 {
      PlainText("");
      StyledUnits(ns, "0", us, 's', "", "");
      assert FormatDuration(0, ns, us) == Component(ns, "0", us, 's') + "";
      assert FormatDuration(0, "", "") == Component("", "0", "", 's') + "";
    } else if ms >= HourMs {
      StyledHours(ms, ns, us);
    } else {
      ShortShape(ms, ns, us);
      ShortShape(ms, "", "");
      StyledAfterHours(ms, ns, us);
    }
  }

  /** The texts after the hours in the unit test of `format_duration`,
      with styles "A" and "B". */
  lemma ExampleAfterHours()
    ensures AfterHours(0, "A", "B") == ""
    ensures AfterHours(1000, "A", "B") == "A1Bs"
    ensures AfterHours(60_000, "A", "B") == "A1Bm"
    ensures AfterHours(61_000, "A", "B") == "A1BmA1Bs"
  {
    assert SecondsText(1000) == "1";
    ShortAfterHoursShape(0, "A", "B");
    ShortAfterHoursShape(1000, "A", "B");
    AfterHoursShape(60_000, "A", "B");
    AfterHoursShape(61_000, "A", "B");
  }

  lemma OneHourThen(r: nat)
    requires r < HourMs
    ensures FormatDuration(HourMs + r, "A", "B") == "A1Bh" + AfterHours(r, "A", "B")
  {
    assert (HourMs + r) / HourMs == 1 && (HourMs + r) % HourMs == r;
    HoursShape(HourMs + r, "A", "B");
    assert Component("A", "1", "B", 'h') == "A1Bh";
  }

  /** The cases the same test pins down below an hour. */
  lemma DurationExamplesBelowHour()
    ensures FormatDuration(0, "A", "B") == "A0Bs"
    ensures FormatDuration(1000, "A", "B") == "A1Bs"
    ensures FormatDuration(60_000, "A", "B") == "A1Bm"
    ensures FormatDuration(61_000, "A", "B") == "A1BmA1Bs"
  {
    ExampleAfterHours();
    ShortShape(1000, "A", "B");
    ShortShape(60_000, "A", "B");
    ShortShape(61_000, "A", "B");
  }

  /** The hour cases of the same test. */
  lemma DurationExamplesHours()
    ensures FormatDuration(3_600_000, "A", "B") == "A1Bh"
    ensures FormatDuration(3_660_000, "A", "B") == "A1BhA1Bm"
    ensures FormatDuration(3_601_000, "A", "B") == "A1BhA1Bs"
    ensures FormatDuration(3_661_000, "A", "B") == "A1BhA1BmA1Bs"
  {
    ExampleAfterHours();
    OneHourThen(0);
    OneHourThen(60_000);
    OneHourThen(1000);
    OneHourThen(61_000);
  }

  lemma LongExampleAfterHours()
    ensures AfterHours(2_800_000, "A", "B") == "A46BmA40Bs"
  {
    AfterHoursShape(2_800_000, "A", "B");
    assert NatToString(46) == "46";
    assert SecondsText(40_000) == NatToString(40) == "40";
  }

  lemma LongExampleHours()
    ensures FormatDuration(100_000_000, "A", "B") == "A27Bh" + AfterHours(2_800_000, "A", "B")
  {
    HoursShape(100_000_000, "A", "B");
    assert NatToString(27) == "27";
  }

  /** 100 000 seconds: 27 hours, 46 minutes and 40 seconds. */
  lemma DurationExampleLong()
    ensures FormatDuration(100_000_000, "A", "B") == "A27BhA46BmA40Bs"
  {
    LongExampleHours();
    LongExampleAfterHours();
  }
}
