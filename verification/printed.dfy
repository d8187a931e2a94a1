/** Printed width of styled terminal text (src/view.rs `printed_width`).
    Every shortest `ESC [ ... m` (an SGR control sequence; the regex's `.`
    does not cross a line feed) is deleted, scanning left to right, and the
    remaining characters are counted. Characters are Unicode scalar values,
    as Rust's `chars()` yields them. */
module Printed {
  import opened Wrappers

  const Esc: char := '\U{1B}'

  /** `x` is exactly one SGR sequence as the regex matches it: `ESC [`, then
      characters other than `m` and line feed, then `m`. */
  predicate IsSgr(x: string) {
    StartsSgr(x) && SgrEnd(x, 2) == Some(|x| - 1)
  }

  predicate StartsSgr(s: string) {
    |s| >= 2 && s[0] == Esc && s[1] == '['
  }

  /** Where the lazy `.*?m` starting at `i` ends: the first `m` at or after
      `i`, unless a line feed or the end of the text comes first. */
  function SgrEnd(s: string, i: nat): (r: Option<nat>)
    decreases |s| - i
    ensures r.Some? ==> i <= r.value < |s| && s[r.value] == 'm'
    ensures r.Some? ==> forall k :: i <= k < r.value ==> s[k] != 'm' && s[k] != '\n'
  {
    if i >= |s| || s[i] == '\n' then None
    else if s[i] == 'm' then Some(i)
    else SgrEnd(s, i + 1)
  }

  /** The text with every SGR sequence replaced by nothing. */
  function Strip(s: string): (r: string)
    ensures |r| <= |s|
  {
    if |s| == 0 then []
    else if StartsSgr(s) && SgrEnd(s, 2).Some? then Strip(s[SgrEnd(s, 2).value + 1..])
    else [s[0]] + Strip(s[1..])
  }

  /** `printed_width`: the columns the text takes on a terminal, which is
      its length once the SGR sequences are gone; text without `ESC` takes
      one column per character. */
  function PrintedWidth(s: string): (w: nat)
    ensures w <= |s|
    ensures Esc !in s ==> w == |s|
  {
    if Esc !in s then PlainText(s); |Strip(s)| else |Strip(s)|
  }

  /** Text whose every `ESC [` is completed by its own `m` inside it and that
      does not end in a bare `ESC`: appending anything cannot change how it
      is scanned. */
  predicate Closed(s: string)
    decreases |s|
  {
    if |s| == 0 then true
    else if StartsSgr(s) then SgrEnd(s, 2).Some? && Closed(s[SgrEnd(s, 2).value + 1..])
    else (s[0] != Esc || |s| >= 2) && Closed(s[1..])
  }

  lemma {:induction false} SgrEndFinds(s: string, i: nat, k: nat)
    requires i <= k < |s| && s[k] == 'm'
    requires forall j :: i <= j < k ==> s[j] != 'm' && s[j] != '\n'
    ensures SgrEnd(s, i) == Some(k)
    decreases k - i
  {
    if i < k {
      SgrEndFinds(s, i + 1, k);
    }
  }

  lemma {:induction false} SgrEndAppend(a: string, b: string, i: nat)
    requires SgrEnd(a, i).Some?
    ensures SgrEnd(a + b, i) == SgrEnd(a, i)
    decreases |a| - i
  {
    if a[i] != '\n' && a[i] != 'm' {
      SgrEndAppend(a, b, i + 1);
    }
  }

  lemma {:induction false} SgrEndAppendNoM(a: string, b: string, i: nat)
    requires SgrEnd(a, i).None?
    requires 'm' !in b
    ensures SgrEnd(a + b, i).None?
    decreases |a| + |b| - i
  {
    if i < |a| {
      if a[i] != '\n' {
        SgrEndAppendNoM(a, b, i + 1);
      }
    } else if i < |a| + |b| {
      assert (a + b)[i] == b[i - |a|];
      assert (a + b)[i] != 'm';
      if (a + b)[i] != '\n' {
        SgrEndAppendNoM(a, b, i + 1);
      }
    }
  }

  /** Scanning a closed prefix is independent of what follows it. */
  lemma {:induction false} StripAppendClosed(a: string, b: string)
    requires Closed(a)
    ensures Strip(a + b) == Strip(a) + Strip(b)
    decreases |a|
  {
    if |a| == 0 {
      assert a + b == b;
    } else if StartsSgr(a) {
      StripAppendClosed(a[SgrEnd(a, 2).value + 1..], b);
      SkipSgrAppend(a, b);
    } else {
      StripAppendClosed(a[1..], b);
      KeepCharAppend(a, b);
    }
  }

  /** One scanning step over a leading SGR sequence, in `a` and in `a + b`. */
  lemma SkipSgrAppend(a: string, b: string)
    requires StartsSgr(a) && SgrEnd(a, 2).Some?
    requires var rest := a[SgrEnd(a, 2).value + 1..];
             Strip(rest + b) == Strip(rest) + Strip(b)
    ensures Strip(a + b) == Strip(a) + Strip(b)
  {
    var e := SgrEnd(a, 2).value;
    SgrEndAppend(a, b, 2);
    assert StartsSgr(a + b);
    DropAppend(a, b, e + 1);
  }

  lemma DropAppend(a: string, b: string, k: nat)
    requires k <= |a|
    ensures (a + b)[k..] == a[k..] + b
  {
  }

  lemma ConsAssoc(c: char, x: string, y: string)
    ensures [c] + (x + y) == ([c] + x) + y
  {
  }

  /** A first character that does not start an SGR sequence is kept. */
  lemma KeepFirst(s: string)
    requires |s| > 0 && !StartsSgr(s)
    ensures Strip(s) == [s[0]] + Strip(s[1..])
  {
  }

  /** One scanning step over a kept character, in `a` and in `a + b`. */
  lemma KeepCharAppend(a: string, b: string)
    requires |a| > 0 && !StartsSgr(a)
    requires a[0] != Esc || |a| >= 2
    requires Strip(a[1..] + b) == Strip(a[1..]) + Strip(b)
    ensures Strip(a + b) == Strip(a) + Strip(b)
  {
    assert !StartsSgr(a + b);
    DropAppend(a, b, 1);
    KeepFirst(a + b);
    KeepFirst(a);
    ConsAssoc(a[0], Strip(a[1..]), Strip(b));
  }

  /** Text without line-feed-free `m` after it cannot complete an open `ESC [`,
      so text holding no `m` at all can be appended without effect on the scan. */
  lemma {:induction false} StripAppendNoM(a: string, b: string)
    requires 'm' !in b
    ensures Strip(a + b) == Strip(a) + b
    decreases |a| + |b|
  {
    if |a| == 0 {
      assert a + b == b;
      StripNoM(b);
    } else if |a| == 1 {
      if StartsSgr(a + b) {
        SgrEndAppendNoM(a, b, 2);
      }
      assert (a + b)[1..] == b;
      StripNoM(b);
    } else if StartsSgr(a) && SgrEnd(a, 2).Some? {
      var e := SgrEnd(a, 2).value;
      SgrEndAppend(a, b, 2);
      DropAppend(a, b, e + 1);
      StripAppendNoM(a[e + 1..], b);
    } else {
      if StartsSgr(a) {
        SgrEndAppendNoM(a, b, 2);
      }
      DropAppend(a, b, 1);
      StripAppendNoM(a[1..], b);
    }
  }

  lemma {:induction false} SgrEndNoM(s: string, i: nat)
    requires 'm' !in s
    ensures SgrEnd(s, i).None?
    decreases |s| - i
  {
    if i < |s| && s[i] != '\n' {
      SgrEndNoM(s, i + 1);
    }
  }

  /** Text holding no `m` contains no SGR sequence and prints as itself. */
  lemma {:induction false} StripNoM(s: string)
    requires 'm' !in s
    ensures Strip(s) == s
    decreases |s|
  {
    if |s| > 0 {
      SgrEndNoM(s, 2);
      StripNoM(s[1..]);
      assert s == [s[0]] + s[1..];
    }
  }

  /** Text without `ESC` is closed and prints as itself. */
  lemma {:induction false} PlainText(s: string)
    requires Esc !in s
    ensures Closed(s)
    ensures Strip(s) == s
    decreases |s|
  {
    if |s| > 0 {
      assert s[0] != Esc;
      PlainText(s[1..]);
      assert s == [s[0]] + s[1..];
    }
  }

  /** One SGR sequence is closed and has width 0. */
  lemma SgrIsInvisible(x: string)
    requires IsSgr(x)
    ensures Closed(x)
    ensures Strip(x) == []
  {
    assert x[|x|..] == [];
  }

  /** A leading SGR sequence is deleted whatever follows it. */
  lemma PrependSgr(x: string, b: string)
    requires IsSgr(x)
    ensures Strip(x + b) == Strip(b)
  {
    SgrEndAppend(x, b, 2);
    DropAppend(x, b, |x|);
    assert x[|x|..] == [];
  }

  /** Leading text without `ESC` is kept as it is. */
  lemma {:induction false} PrependPlain(a: string, b: string)
    requires Esc !in a
    ensures Strip(a + b) == a + Strip(b)
  {
    if |a| > 0 {
      DropAppend(a, b, 1);
      assert a[0] != Esc;
      PrependPlain(a[1..], b);
      assert a == [a[0]] + a[1..];
    } else {
      assert a + b == b;
    }
  }

  /** Concatenation keeps text closed. */
  lemma {:induction false} ClosedConcat(a: string, b: string)
    requires Closed(a) && Closed(b)
    ensures Closed(a + b)
    decreases |a|
  {
    if |a| > 0 {
      if StartsSgr(a) {
        var e := SgrEnd(a, 2).value;
        SgrEndAppend(a, b, 2);
        DropAppend(a, b, e + 1);
        ClosedConcat(a[e + 1..], b);
      } else {
        DropAppend(a, b, 1);
        ClosedConcat(a[1..], b);
      }
    } else {
      assert a + b == b;
    }
  }

  /** Inserting one SGR sequence after a closed prefix never changes the
      printed width; in particular prepending one never does. */
  lemma InsertSgr(a: string, x: string, b: string)
    requires Closed(a)
    requires IsSgr(x)
    ensures PrintedWidth(a + x + b) == PrintedWidth(a + b)
    ensures PrintedWidth(x + b) == PrintedWidth(b)
  {
    PrependSgr(x, b);
    assert a + x + b == a + (x + b);
    StripAppendClosed(a, x + b);
    StripAppendClosed(a, b);
  }

  function Concat(xs: seq<string>): string {
    if |xs| == 0 then [] else xs[0] + Concat(xs[1..])
  }

  /** Text made only of SGR sequences has width 0. */
  lemma {:induction false} OnlySgrIsInvisible(xs: seq<string>)
    requires forall i :: 0 <= i < |xs| ==> IsSgr(xs[i])
    ensures Closed(Concat(xs))
    ensures PrintedWidth(Concat(xs)) == 0
  {
    if |xs| > 0 {
      SgrIsInvisible(xs[0]);
      OnlySgrIsInvisible(xs[1..]);
      StripAppendClosed(xs[0], Concat(xs[1..]));
      ClosedConcat(xs[0], Concat(xs[1..]));
    }
  }
}
