/** The graph of one stream (src/view.rs `StreamWrapper::render`): which
    samples are shown, which bar glyph each gets, where the tick columns
    are, how the expanded view cuts the value range into rows, and the
    lo/hi/avg statistics. The source's `f64` NaN, the result of folding
    or averaging no numbers, is `None` here. */
module Graph {
  import opened Wrappers

  const BarCount: nat := 8
  const Bars: seq<char> := ['\U{2581}', '\U{2582}', '\U{2583}', '\U{2584}',
                            '\U{2585}', '\U{2586}', '\U{2587}', '\U{2588}']
  /** Shown for a missing sample. */
  const Dot: char := '\U{2022}'
  const ExpandedGraphHeight: nat := 5

  /** `f64::ceil`. */
  function Ceil(x: real): int {
    -((-x).Floor)
  }

  lemma CeilBounds(x: real)
    ensures Ceil(x) as real - 1.0 < x <= Ceil(x) as real
  {
  }

  // ---------------------------------------------------------------------
  // Bar glyphs.

  /** The bar for `v` on a scale from `min` to `max`: the eighth of the
      range `v` falls in, counted from 0, with values at or below `min` on
      the lowest bar. `as usize` saturates negative buckets at 0. A range
      that is empty (or NaN, modelled by the caller) puts every value on the
      lowest bar. */
  function BarIndex(v: real, min: real, max: real): nat {
    if min < max then
      var bucket := Ceil((v - min) / (max - min) * (BarCount as real));
      var saturated: nat := if bucket < 0 then 0 else bucket;
      if saturated == 0 then 0 else saturated - 1
    else
      0
  }

  /** The lower edge of the `k`-th eighth of the range. */
  function Edge(min: real, max: real, k: nat): real {
    min + (max - min) * (k as real) / (BarCount as real)
  }

  /** Independent description of the buckets: above `min`, the bar index is
      `k` exactly when `v` lies in the half-open eighth `(Edge k, Edge k+1]`. */
  lemma BarIndexBuckets(v: real, min: real, max: real, k: nat)
    requires min < max && min < v
    ensures BarIndex(v, min, max) == k <==> Edge(min, max, k) < v <= Edge(min, max, k + 1)
  {
    var d := max - min;
    var level := (v - min) / d * 8.0;
    CeilBounds(level);
    var c := Ceil(level);
    assert c >= 1;
    assert BarIndex(v, min, max) == c - 1;
    EdgeLevel(min, max, k, v);
    EdgeLevel(min, max, k + 1, v);
  }

  /** Comparing with an edge is comparing the level with the edge's
      number. */
  lemma EdgeLevel(min: real, max: real, k: nat, v: real)
    requires min < max
    ensures Edge(min, max, k) < v <==> (k as real) < (v - min) / (max - min) * 8.0
    ensures v <= Edge(min, max, k) <==> (v - min) / (max - min) * 8.0 <= (k as real)
  {
    var d := max - min;
    var x := v - min;
    var e := (k as real) / 8.0;
    assert Edge(min, max, k) == min + e * d;
    assert x == (x / d) * d;
    ScaleOrder(e, x / d, d);
    ScaleOrder(x / d, e, d);
  }

  /** `a < b` and `a <= b` survive scaling by a positive `d`, and back. */
  lemma ScaleOrder(a: real, b: real, d: real)
    requires d > 0.0
    ensures a < b <==> a * d < b * d
    ensures a <= b <==> a * d <= b * d
  {
  }

  /** Values at or below `min` get the lowest bar. */
  lemma BarIndexAtMin(v: real, min: real, max: real)
    requires v <= min
    ensures BarIndex(v, min, max) == 0
  {
    if min < max {
      var level := (v - min) / (max - min) * 8.0;
      assert (v - min) / (max - min) <= 0.0;
      CeilBounds(level);
    }
  }

  /** Every value of the range has a glyph: the index is below 8, and the
      top of a nonempty range gets the highest bar. */
  lemma BarIndexInRange(v: real, min: real, max: real)
    requires v <= max
    ensures BarIndex(v, min, max) < BarCount
    ensures min < max && v == max ==> BarIndex(v, min, max) == BarCount - 1
  {
    if min < max {
      var d := max - min;
      var level := (v - min) / d * 8.0;
      CeilBounds(level);
      assert (v - min) / d <= 1.0 by {
        ScaleOrder((v - min) / d, 1.0, d);
      }
      if v == max {
        assert (v - min) / d == 1.0;
        assert level == 8.0;
      }
    }
  }

  /** Higher values never get lower bars. */
  lemma BarIndexMonotonic(v: real, w: real, min: real, max: real)
    requires v <= w
    ensures BarIndex(v, min, max) <= BarIndex(w, min, max)
  {
    if min < max {
      var d := max - min;
      assert (v - min) / d <= (w - min) / d by {
        ScaleOrder((v - min) / d, (w - min) / d, d);
      }
      CeilBounds((v - min) / d * 8.0);
      CeilBounds((w - min) / d * 8.0);
    }
  }

  /** The glyph for one sample: a dot when there is none, otherwise its
      bar. The scale bounds are `None` where the source has NaN, and then
      every comparison fails and the lowest bar is used. The source indexes
      the bar table, so a value above the scale is a panic. */
  function Symbol(v: Option<real>, min: Option<real>, max: Option<real>): char
    requires v.Some? && min.Some? && max.Some? ==> v.value <= max.value
  {
    match v
    case None => Dot
    case Some(x) =>
      if min.Some? && max.Some? then
        BarIndexInRange(x, min.value, max.value);
        Bars[BarIndex(x, min.value, max.value)]
      else
        Bars[0]
  }

  /** The glyph cases: a dot exactly for a missing sample; the lowest bar
      when a bound is missing or the value is at or below the minimum; the
      full block for the maximum of a nonempty range; higher values never
      get lower bars. */
  lemma SymbolCases(v: Option<real>, w: Option<real>, min: Option<real>, max: Option<real>)
    requires v.Some? && min.Some? && max.Some? ==> v.value <= max.value
    requires w.Some? && min.Some? && max.Some? ==> w.value <= max.value
    ensures Symbol(v, min, max) == Dot <==> v.None?
    ensures v.Some? && (min.None? || max.None?) ==> Symbol(v, min, max) == Bars[0]
    ensures v.Some? && min.Some? && v.value <= min.value ==> Symbol(v, min, max) == Bars[0]
    ensures v.Some? && min.Some? && max.Some? && min.value < max.value && v.value == max.value ==>
              Symbol(v, min, max) == Bars[BarCount - 1]
    ensures v.Some? && w.Some? && min.Some? && max.Some? && v.value <= w.value ==>
              exists j, k :: 0 <= j <= k < BarCount && Symbol(v, min, max) == Bars[j] && Symbol(w, min, max) == Bars[k]
  {
    if v.Some? && min.Some? && max.Some? {
      BarIndexInRange(v.value, min.value, max.value);
      if v.value <= min.value {
        BarIndexAtMin(v.value, min.value, max.value);
      }
      if w.Some? && v.value <= w.value {
        BarIndexInRange(w.value, min.value, max.value);
        BarIndexMonotonic(v.value, w.value, min.value, max.value);
        var j := BarIndex(v.value, min.value, max.value);
        var k := BarIndex(w.value, min.value, max.value);
        assert Symbol(v, min, max) == Bars[j] && Symbol(w, min, max) == Bars[k];
      }
    }
  }

  // ---------------------------------------------------------------------
  // The samples a graph shows.

  /** The last `graphWidth` samples, oldest first, right-aligned: columns
      older than the history hold no sample. */
  function Window(history: seq<Option<real>>, graphWidth: nat): (w: seq<Option<real>>)
    ensures |w| == graphWidth
  {
    seq(graphWidth, j requires 0 <= j < graphWidth =>
      var i := graphWidth - j;
      if i <= |history| then history[|history| - i] else None)
  }

  function Nones(n: nat): (r: seq<Option<real>>)
    ensures |r| == n
  {
    seq(n, _ => None)
  }

  /** The window is the history's last `graphWidth` samples, or the whole
      history after enough empty columns. */
  lemma WindowReference(history: seq<Option<real>>, graphWidth: nat)
    ensures |history| >= graphWidth ==>
              Window(history, graphWidth) == history[|history| - graphWidth..]
    ensures |history| < graphWidth ==>
              Window(history, graphWidth) == Nones(graphWidth - |history|) + history
  {
    var w := Window(history, graphWidth);
    if |history| >= graphWidth {
      var tail := history[|history| - graphWidth..];
      assert forall j :: 0 <= j < graphWidth ==> w[j] == tail[j];
    } else {
      var r := Nones(graphWidth - |history|) + history;
      assert forall j :: 0 <= j < graphWidth ==> w[j] == r[j];
    }
  }

  /** A new sample enters at the right edge and the oldest column drops out
      on the left. */
  lemma WindowShift(history: seq<Option<real>>, x: Option<real>, graphWidth: nat)
    requires graphWidth > 0
    ensures Window(history + [x], graphWidth) == Window(history, graphWidth)[1..] + [x]
  {
    var a := Window(history + [x], graphWidth);
    var b := Window(history, graphWidth)[1..] + [x];
    forall j | 0 <= j < graphWidth
      ensures a[j] == b[j]
    {
      if j < graphWidth - 1 {
        assert b[j] == Window(history, graphWidth)[j + 1];
      }
    }
  }

  /** The rightmost column shows the newest sample. */
  lemma WindowNewest(history: seq<Option<real>>, graphWidth: nat)
    requires graphWidth > 0 && |history| > 0
    ensures Window(history, graphWidth)[graphWidth - 1] == history[|history| - 1]
  {
  }

  /** Column `i` of the graph is crossed by a tick line: counted from the
      right edge, every `tickSpacing`-th column, starting with the
      rightmost. */
  predicate IsTick(graphWidth: nat, i: nat, tickSpacing: nat)
    requires i < graphWidth && tickSpacing > 0
  {
    (graphWidth - 1 - i) % tickSpacing == 0
  }

  /** The rightmost column is a tick, the columns fewer than `tickSpacing`
      places left of it are not, and ticks repeat every `tickSpacing`
      columns, so there are none in between. */
  lemma TickColumns(graphWidth: nat, i: nat, tickSpacing: nat)
    requires i < graphWidth && tickSpacing > 0
    ensures IsTick(graphWidth, graphWidth - 1, tickSpacing)
    ensures 0 < graphWidth - 1 - i < tickSpacing ==> !IsTick(graphWidth, i, tickSpacing)
    ensures i + tickSpacing < graphWidth ==>
              (IsTick(graphWidth, i, tickSpacing) <==> IsTick(graphWidth, i + tickSpacing, tickSpacing))
  {
    if i + tickSpacing < graphWidth {
      var a := graphWidth - 1 - i - tickSpacing;
      assert graphWidth - 1 - i == a + tickSpacing;
      ModShift(a, tickSpacing);
    }
  }

  lemma ModShift(a: nat, t: nat)
    requires t > 0
    ensures (a + t) % t == a % t
  {
    var q := a / t;
    var r := a % t;
    assert a == q * t + r;
    assert a + t == (q + 1) * t + r;
    ModUnique(a + t, q + 1, r, t);
  }

  /** Euclidean division leaves one remainder. */
  lemma ModUnique(x: nat, q: int, r: int, t: nat)
    requires t > 0 && 0 <= r < t && x == q * t + r
    ensures x % t == r
  {
    var q' := x / t;
    var r' := x % t;
    assert (q - q') * t == r' - r;
    if q > q' {
      MulAtLeast(q - q', t);
    } else if q < q' {
      MulAtLeast(q' - q, t);
    }
  }

  lemma MulAtLeast(m: int, t: nat)
    requires m >= 1
    ensures m * t >= t
  {
    assert m * t == (m - 1) * t + t;
  }

  // ---------------------------------------------------------------------
  // The expanded view: five rows, each a graph of one fifth of the range.

  function RowMin(min: real, max: real, i: nat): real {
    min + (max - min) / (ExpandedGraphHeight as real) * (i as real)
  }

  function RowMax(min: real, max: real, i: nat): real {
    RowMin(min, max, i) + (max - min) / (ExpandedGraphHeight as real)
  }

  /** The rows tile the range from `min` to `max`, the lowest starting at
      `min`, the highest ending at `max`, each ending where the next one
      starts. */
  lemma RowsTileRange(min: real, max: real, i: nat)
    ensures RowMin(min, max, 0) == min
    ensures RowMax(min, max, ExpandedGraphHeight - 1) == max
    ensures RowMax(min, max, i) == RowMin(min, max, i + 1)
  {
  }

  /** A sample as one row shows it: missing below the row, clamped to the
      row's top above it. A banded sample is therefore always on its row's
      scale, so drawing the row never indexes past the bar table. */
  function Band(v: Option<real>, rowMin: real, rowMax: real): (r: Option<real>)
    ensures r.None? <==> v.None? || v.value < rowMin
    ensures rowMin <= rowMax && r.Some? ==> rowMin <= r.value <= rowMax
  {
    match v
    case None => None
    case Some(x) =>
      if x < rowMin then None
      else if x > rowMax then Some(rowMax)
      else Some(x)
  }

  /** What a row shows of a sample: a dot in the rows above it, a full bar
      in the rows below it, and the sample itself within the row. */
  lemma BandShows(x: real, rowMin: real, rowMax: real)
    requires rowMin < rowMax
    ensures x < rowMin ==> Band(Some(x), rowMin, rowMax) == None
    ensures x > rowMax ==> Band(Some(x), rowMin, rowMax) == Some(rowMax)
                           && BarIndex(rowMax, rowMin, rowMax) == BarCount - 1
    ensures rowMin <= x <= rowMax ==> Band(Some(x), rowMin, rowMax) == Some(x)
  {
    BarIndexInRange(rowMax, rowMin, rowMax);
  }

  // ---------------------------------------------------------------------
  // Statistics and derived bounds.

  /** The samples that are present, in order (`filter_map`). */
  function Numbers(values: seq<Option<real>>): (xs: seq<real>)
    ensures |xs| <= |values|
  {
    if |values| == 0 then []
    else
      match values[0]
      case Some(x) => [x] + Numbers(values[1..])
      case None => Numbers(values[1..])
  }

  function MinR(a: real, b: real): real {
    if a <= b then a else b
  }

  function MaxR(a: real, b: real): real {
    if a >= b then a else b
  }

  /** `fold(NAN, f64::min)`: NaN is the neutral start, so the result is the
      smallest number, or NaN (`None`) when there is none. */
  function FoldMin(acc: Option<real>, xs: seq<real>): Option<real>
    decreases |xs|
  {
    if |xs| == 0 then acc
    else FoldMin(Some(if acc.Some? then MinR(acc.value, xs[0]) else xs[0]), xs[1..])
  }

  function FoldMax(acc: Option<real>, xs: seq<real>): Option<real>
    decreases |xs|
  {
    if |xs| == 0 then acc
    else FoldMax(Some(if acc.Some? then MaxR(acc.value, xs[0]) else xs[0]), xs[1..])
  }

  function Sum(xs: seq<real>): real {
    if |xs| == 0 then 0.0 else xs[0] + Sum(xs[1..])
  }

  /** `sum / len`: NaN (`None`) for no numbers. */
  function Average(xs: seq<real>): Option<real> {
    if |xs| == 0 then None else Some(Sum(xs) / (|xs| as real))
  }
  predicate AllWithin(xs: seq<real>, lo: real, hi: real) {
    |xs| == 0 || (lo <= xs[0] <= hi && AllWithin(xs[1..], lo, hi))
  }

  /** The fold yields a number exactly when it started from one or had
      something to fold, and then that number is the smallest of them all
      and one of them. */
  lemma {:induction false} FoldMinIsLowest(acc: Option<real>, xs: seq<real>)
    decreases |xs|
    ensures FoldMin(acc, xs).Some? <==> acc.Some? || |xs| > 0
    ensures FoldMin(acc, xs).Some? ==>
              (acc.Some? ==> FoldMin(acc, xs).value <= acc.value)
              && (forall k :: 0 <= k < |xs| ==> FoldMin(acc, xs).value <= xs[k])
              && (Some(FoldMin(acc, xs).value) == acc || FoldMin(acc, xs).value in xs)
  {
    if |xs| > 0 {
      var next := Some(if acc.Some? then MinR(acc.value, xs[0]) else xs[0]);
      FoldMinIsLowest(next, xs[1..]);
      assert forall k :: 1 <= k < |xs| ==> xs[k] == xs[1..][k - 1];
    }
  }

  /** The same for the largest number. */
  lemma {:induction false} FoldMaxIsHighest(acc: Option<real>, xs: seq<real>)
    decreases |xs|
    ensures FoldMax(acc, xs).Some? <==> acc.Some? || |xs| > 0
    ensures FoldMax(acc, xs).Some? ==>
              (acc.Some? ==> FoldMax(acc, xs).value >= acc.value)
              && (forall k :: 0 <= k < |xs| ==> FoldMax(acc, xs).value >= xs[k])
              && (Some(FoldMax(acc, xs).value) == acc || FoldMax(acc, xs).value in xs)
  {
    if |xs| > 0 {
      var next := Some(if acc.Some? then MaxR(acc.value, xs[0]) else xs[0]);
      FoldMaxIsHighest(next, xs[1..]);
      assert forall k :: 1 <= k < |xs| ==> xs[k] == xs[1..][k - 1];
    }
  }

  /** A sum of numbers between `lo` and `hi` lies between `n * lo` and
      `n * hi`. */
  lemma {:induction false} SumBounds(xs: seq<real>, lo: real, hi: real)
    requires AllWithin(xs, lo, hi)
    ensures (|xs| as real) * lo <= Sum(xs) <= (|xs| as real) * hi
  {
    if |xs| > 0 {
      var rest := xs[1..];
      SumBounds(rest, lo, hi);
      assert Sum(xs) == xs[0] + Sum(rest);
      assert |xs| as real == |rest| as real + 1.0;
      OneMore(|rest| as real, lo);
      OneMore(|rest| as real, hi);
    }
  }

  lemma OneMore(n: real, x: real)
    ensures (n + 1.0) * x == n * x + x
  {
  }

  lemma {:induction false} AllWithinIndexed(xs: seq<real>, lo: real, hi: real)
    requires forall k :: 0 <= k < |xs| ==> lo <= xs[k] <= hi
    ensures AllWithin(xs, lo, hi)
  {
    if |xs| > 0 {
      assert forall k :: 0 <= k < |xs[1..]| ==> xs[1..][k] == xs[k + 1];
      AllWithinIndexed(xs[1..], lo, hi);
    }
  }

  /** The statistics line: a nonempty list of numbers has a smallest, a
      largest and an average, and the average lies between the other two;
      an empty one has none of them. */
  lemma Statistics(xs: seq<real>)
    ensures FoldMin(None, xs).Some? <==> |xs| > 0
    ensures FoldMax(None, xs).Some? <==> |xs| > 0
    ensures Average(xs).Some? <==> |xs| > 0
    ensures |xs| > 0 ==> FoldMin(None, xs).value <= Average(xs).value <= FoldMax(None, xs).value
  {
    FoldMinIsLowest(None, xs);
    FoldMaxIsHighest(None, xs);
    if |xs| > 0 {
      var lo := FoldMin(None, xs).value;
      var hi := FoldMax(None, xs).value;
      AllWithinIndexed(xs, lo, hi);
      SumBounds(xs, lo, hi);
      DivBetween(Sum(xs), |xs| as real, lo, hi);
    }
  }

  lemma DivBetween(s: real, n: real, lo: real, hi: real)
    requires n > 0.0 && n * lo <= s <= n * hi
    ensures lo <= s / n <= hi
  {
    ScaleOrder(lo, s / n, n);
    ScaleOrder(s / n, hi, n);
  }

  /** Every sample present in the window is among its numbers. */
  lemma {:induction false} NumbersContains(values: seq<Option<real>>, k: nat)
    requires k < |values| && values[k].Some?
    ensures values[k].value in Numbers(values)
  {
    if k > 0 {
      NumbersContains(values[1..], k - 1);
    }
  }

  /** `unwrap_or`: a declared bound wins over the one derived from the
      samples. */
  function Bound(declared: Option<real>, derived: Option<real>): (b: Option<real>)
    ensures declared.Some? ==> b == declared
    ensures declared.None? ==> b == derived
  {
    if declared.Some? then declared else derived
  }

  /** Every sample is within the declared maximum, if there is one. */
  predicate BelowDeclared(values: seq<Option<real>>, declaredMax: Option<real>) {
    forall k :: 0 <= k < |values| && values[k].Some? && declaredMax.Some? ==>
      values[k].value <= declaredMax.value
  }

  /** The graph's scale covers every sample it shows, whether its top is
      declared by the stream (and the samples respect it) or derived from
      the samples: no sample indexes past the bar table. */
  lemma ScaleCoversWindow(values: seq<Option<real>>, declaredMax: Option<real>, k: nat)
    requires BelowDeclared(values, declaredMax)
    requires k < |values| && values[k].Some?
    ensures Bound(declaredMax, FoldMax(None, Numbers(values))).Some?
    ensures values[k].value <= Bound(declaredMax, FoldMax(None, Numbers(values))).value
  {
    NumbersContains(values, k);
    FoldMaxIsHighest(None, Numbers(values));
  }
}
