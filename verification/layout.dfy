/** The column arithmetic of the main screen (src/view.rs
    `Application::render`, `name_width`, `value_width`): each stream line is
    a name column, a space, the graph, a space and a value column, and the
    top bar above it carries the tick labels and "Now". */
module Layout {
  import opened Wrappers
  import opened Printed
  import opened Stream
  import Graph
  import Duration
  import TextLayout

  /** Heads the statistics in the value column of an expanded stream. */
  const StatsLabel: string := "lo/hi/avg"
  const Now: string := "Now"

  /** What the name column must hold for one stream: its name, and any of
      its values, since expanded streams show axis labels there. */
  function NameColumn(s: Stream.SimpleStream): nat {
    TextLayout.Max(PrintedWidth(s.name), s.formatWidth)
  }

  /** `name_width`: the widest name column of the active streams, 0 for
      none. */
  function NameWidth(streams: seq<Stream.SimpleStream>): nat {
    if |streams| == 0 then 0 else TextLayout.Max(NameColumn(streams[0]), NameWidth(streams[1..]))
  }

  function MaxFormatWidth(streams: seq<Stream.SimpleStream>): nat {
    if |streams| == 0 then 0 else TextLayout.Max(streams[0].formatWidth, MaxFormatWidth(streams[1..]))
  }

  /** `value_width`: the widest value of the active streams, and never
      narrower than the statistics label. */
  function ValueWidth(streams: seq<Stream.SimpleStream>): nat {
    TextLayout.Max(MaxFormatWidth(streams), PrintedWidth(StatsLabel))
  }

  /** The name width is the largest name column: at least every stream's,
      and equal to one of them (0 when there is no stream). */
  lemma {:induction false} NameWidthIsMax(streams: seq<Stream.SimpleStream>)
    ensures forall k :: 0 <= k < |streams| ==> NameColumn(streams[k]) <= NameWidth(streams)
    ensures |streams| == 0 ==> NameWidth(streams) == 0
    ensures |streams| > 0 ==> exists k :: 0 <= k < |streams| && NameWidth(streams) == NameColumn(streams[k])
  {
    if |streams| > 0 {
      NameWidthIsMax(streams[1..]);
      assert forall k :: 1 <= k < |streams| ==> streams[k] == streams[1..][k - 1];
      if |streams| > 1 && NameWidth(streams) != NameColumn(streams[0]) {
        var k :| 0 <= k < |streams[1..]| && NameWidth(streams[1..]) == NameColumn(streams[1..][k]);
        assert NameWidth(streams) == NameColumn(streams[k + 1]);
      }
    }
  }

  lemma {:induction false} MaxFormatWidthIsMax(streams: seq<Stream.SimpleStream>)
    ensures forall k :: 0 <= k < |streams| ==> streams[k].formatWidth <= MaxFormatWidth(streams)
    ensures |streams| == 0 ==> MaxFormatWidth(streams) == 0
    ensures |streams| > 0 ==> exists k :: 0 <= k < |streams| && MaxFormatWidth(streams) == streams[k].formatWidth
  {
    if |streams| > 0 {
      MaxFormatWidthIsMax(streams[1..]);
      assert forall k :: 1 <= k < |streams| ==> streams[k] == streams[1..][k - 1];
      if |streams| > 1 && MaxFormatWidth(streams) != streams[0].formatWidth {
        var k :| 0 <= k < |streams[1..]| && MaxFormatWidth(streams[1..]) == streams[1..][k].formatWidth;
        assert MaxFormatWidth(streams) == streams[k + 1].formatWidth;
      }
    }
  }

  /** The value column holds every stream's values and the statistics
      label, so it is at least nine columns wide; it is exactly the widest
      of those. */
  lemma ValueWidthBounds(streams: seq<Stream.SimpleStream>)
    ensures ValueWidth(streams) >= 9
    ensures forall k :: 0 <= k < |streams| ==> streams[k].formatWidth <= ValueWidth(streams)
    ensures ValueWidth(streams) == 9
            || exists k :: 0 <= k < |streams| && ValueWidth(streams) == streams[k].formatWidth
  {
    PlainText(StatsLabel);
    MaxFormatWidthIsMax(streams);
  }

  /** Every field of a stream line fits its column: the name and any
      formatted value in the name column, any formatted value in the value
      column. Padding them is therefore well defined. */
  lemma FieldsFit(streams: seq<Stream.SimpleStream>, k: nat)
    requires k < |streams|
    ensures PrintedWidth(streams[k].name) <= NameWidth(streams)
    ensures streams[k].formatWidth <= NameWidth(streams)
    ensures streams[k].formatWidth <= ValueWidth(streams)
  {
    NameWidthIsMax(streams);
    ValueWidthBounds(streams);
  }

  /** The horizontal partition of the main screen. */
  datatype Columns = Columns(width: nat, graphWidth: nat, fullIntervals: nat, firstTickPadding: nat)

  /** The screen is widened when the terminal cannot hold the name and
      value columns and a graph of one column; the graph takes what is
      left; the top bar has one label per whole tick interval that fits
      left of "Now", and starts with padding up to the first of them. */
  function MainColumns(termWidth: nat, nameWidth: nat, valueWidth: nat, tickSpacing: nat): Columns
    requires tickSpacing > 0
  {
    var width := TextLayout.Max(termWidth, nameWidth + 3 + valueWidth);
    var graphWidth: nat := width - nameWidth - valueWidth - 2;
    var full := (graphWidth - 1) / tickSpacing;
    FullIntervalsFit(graphWidth - 1, tickSpacing);
    Columns(width, graphWidth, full, nameWidth + 1 + (graphWidth - 1 - full * tickSpacing))
  }

  lemma FullIntervalsFit(a: nat, t: nat)
    requires t > 0
    ensures (a / t) * t <= a
    ensures a - (a / t) * t < t
  {
  }

  /** The screen is as wide as the terminal or the minimum, a stream line
      (name, space, graph, space, value) spans it exactly, the graph has at
      least one column, and the top bar (padding, the labels, "Now" and
      the rest of the value column) spans it exactly too. */
  lemma ColumnsAddUp(termWidth: nat, nameWidth: nat, valueWidth: nat, tickSpacing: nat)
    requires tickSpacing > 0
    ensures var c := MainColumns(termWidth, nameWidth, valueWidth, tickSpacing);
            c.width >= termWidth && c.width >= nameWidth + 3 + valueWidth
            && (c.width == termWidth || c.width == nameWidth + 3 + valueWidth)
            && c.graphWidth >= 1
            && nameWidth + 1 + c.graphWidth + 1 + valueWidth == c.width
            && c.firstTickPadding + c.fullIntervals * tickSpacing + |Now| + (valueWidth - 1) == c.width
  {
  }

  /** The label of the `i`-th interval (counting back from "Now") starts on
      the graph column that is `i * tickSpacing` samples old, and that
      column is a tick column; the top bar's labels therefore sit on the
      graph's tick lines. */
  lemma TickLabelsAlign(termWidth: nat, nameWidth: nat, valueWidth: nat, tickSpacing: nat, i: nat)
    requires tickSpacing > 0
    requires 1 <= i <= MainColumns(termWidth, nameWidth, valueWidth, tickSpacing).fullIntervals
    ensures var c := MainColumns(termWidth, nameWidth, valueWidth, tickSpacing);
            var column := c.graphWidth - 1 - i * tickSpacing;
            0 <= column < c.graphWidth
            && c.firstTickPadding + (c.fullIntervals - i) * tickSpacing == nameWidth + 1 + column
            && Graph.IsTick(c.graphWidth, column, tickSpacing)
  {
    var c := MainColumns(termWidth, nameWidth, valueWidth, tickSpacing);
    var full := c.fullIntervals;
    FullIntervalsFit(c.graphWidth - 1, tickSpacing);
    MulLe(i, full, tickSpacing);
    var column := c.graphWidth - 1 - i * tickSpacing;
    assert (full - i) * tickSpacing == full * tickSpacing - i * tickSpacing;
    assert (c.graphWidth - 1 - column) % tickSpacing == 0 by {
      MultipleMod(i, tickSpacing);
    }
  }

  /** The time label over the `i`-th tick interval (`seconds * i *
      tickSpacing` seconds, with SGR styles) fits the `tickSpacing` columns
      `pad_right` gives it whenever the spacing is at least nine columns and
      the time is below a hundred hours, so every label field is exactly
      `tickSpacing` columns wide. */
  lemma TickLabelFits(seconds: nat, tickSpacing: nat, i: nat, ns: string, us: string)
    requires IsSgr(ns) && IsSgr(us)
    requires tickSpacing >= 9
    requires seconds * i * tickSpacing < 100 * 3600
    ensures var text := Duration.FormatDuration(seconds * i * tickSpacing * 1000, ns, us);
            PrintedWidth(text) <= tickSpacing
            && PrintedWidth(TextLayout.PadRight(text, tickSpacing)) == tickSpacing
  {
    var t := seconds * i * tickSpacing;
    MultipleMod(t, 1000);
    Duration.WholeSecondsLabelWidth(t * 1000, ns, us);
  }

  lemma MulLe(a: nat, b: nat, t: nat)
    requires a <= b
    ensures a * t <= b * t
  {
  }

  lemma MultipleMod(i: nat, t: nat)
    requires t > 0
    ensures (i * t) % t == 0
  {
    Graph.ModUnique(i * t, i, 0, t);
  }

  /** "Now" starts on the rightmost graph column, which shows the newest
      sample and is always a tick column. */
  lemma NowOnNewest(termWidth: nat, nameWidth: nat, valueWidth: nat, tickSpacing: nat)
    requires tickSpacing > 0
    ensures var c := MainColumns(termWidth, nameWidth, valueWidth, tickSpacing);
            c.firstTickPadding + c.fullIntervals * tickSpacing == nameWidth + 1 + (c.graphWidth - 1)
            && Graph.IsTick(c.graphWidth, c.graphWidth - 1, tickSpacing)
  {
    var c := MainColumns(termWidth, nameWidth, valueWidth, tickSpacing);
    Graph.TickColumns(c.graphWidth, c.graphWidth - 1, tickSpacing);
  }

  /** The graph column a label sits on shows the sample taken that many
      ticks before the newest one. */
  lemma TickColumnAge(history: seq<Option<real>>, graphWidth: nat, age: nat)
    requires age < graphWidth && age < |history|
    ensures Graph.Window(history, graphWidth)[graphWidth - 1 - age] == history[|history| - 1 - age]
  {
  }

  /** Rows of the main screen between the top and bottom bars; the
      terminal is taken to be at least three rows high, so the two bars
      and the body fill a terminal of three or more rows exactly. */
  function MaxLines(termHeight: nat): (n: nat)
    ensures n >= 1 && n + 2 >= termHeight
    ensures termHeight >= 3 ==> n + 2 == termHeight
    ensures termHeight < 3 ==> n == 1
  {
    TextLayout.Max(termHeight, 3) - 2
  }
}
