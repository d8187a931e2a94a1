/** Fitting text into terminal columns (src/view.rs `ellipsize`, `pad_left`,
    `pad_right`). */
module TextLayout {
  import opened Printed

  const Ellipsis: char := '\U{2026}'

  function Spaces(n: nat): (r: string)
    ensures |r| == n
    ensures forall i :: 0 <= i < n ==> r[i] == ' '
  {
    seq(n, _ => ' ')
  }

  lemma SpacesArePlain(n: nat)
    ensures Closed(Spaces(n))
    ensures PrintedWidth(Spaces(n)) == n
    ensures 'm' !in Spaces(n)
  {
    PlainText(Spaces(n));
  }

  function Min(a: int, b: int): int {
    if a <= b then a else b
  }

  /** Column counts are combined with `max`. */
  function Max(a: nat, b: nat): nat {
    if a >= b then a else b
  }

  /** Shortens text to at most `width` characters, marking a cut with `…`.
      The source asserts `width > 0`. Characters are counted here, not
      printed width: the text is expected to carry no SGR sequences. */
  function Ellipsize(s: string, width: nat): (r: string)
    requires width > 0
    ensures |r| == Min(|s|, width)
    ensures |s| <= width ==> r == s
    ensures |s| > width ==> r[..|r| - 1] == s[..|r| - 1] && r[|r| - 1] == Ellipsis
  {
    if |s| > width then s[..width - 1] + [Ellipsis] else s
  }

  /** Right-aligns text in a field of `width` printed columns. The source
      computes `width - printed_width(s)` as `usize`, so a text wider than the
      field is a contract violation. */
  function PadLeft(s: string, width: nat): (r: string)
    requires PrintedWidth(s) <= width
    ensures PrintedWidth(r) == width
    ensures |r| >= |s| && r[|r| - |s|..] == s
    ensures forall i :: 0 <= i < |r| - |s| ==> r[i] == ' '
  {
    var pad := Spaces(width - PrintedWidth(s));
    SpacesArePlain(width - PrintedWidth(s));
    StripAppendClosed(pad, s);
    assert (pad + s)[|pad|..] == s;
    pad + s
  }

  /** Left-aligns text in a field of `width` printed columns. */
  function PadRight(s: string, width: nat): (r: string)
    requires PrintedWidth(s) <= width
    ensures PrintedWidth(r) == width
    ensures |r| >= |s| && r[..|s|] == s
    ensures forall i :: |s| <= i < |r| ==> r[i] == ' '
  {
    var pad := Spaces(width - PrintedWidth(s));
    SpacesArePlain(width - PrintedWidth(s));
    StripAppendNoM(s, pad);
    assert (s + pad)[..|s|] == s;
    s + pad
  }

  /** Ellipsized text always fits its field, so padding it afterwards (as the
      expanded stream header does with the description) is well defined;
      text without escapes then takes exactly min(length, width) columns. */
  lemma EllipsizeThenPad(s: string, width: nat)
    requires width > 0
    ensures PrintedWidth(Ellipsize(s, width)) <= width
    ensures Esc !in s ==> PrintedWidth(Ellipsize(s, width)) == Min(|s|, width)
  {
    var r := Ellipsize(s, width);
    if Esc !in s && |s| > width {
      assert forall i :: 0 <= i < |r| - 1 ==> r[i] == s[i];
      assert r[|r| - 1] != Esc;
      assert Esc !in r;
    }
    if Esc !in s {
      PlainText(r);
    }
  }
}
