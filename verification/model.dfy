/** The application state machine (src/model.rs): the stream entries and
    their histories, the screen, the selection and the two-anchor scroll
    position, and the interval catalogue; `handle` interprets input
    events, `scroll_to_stream` reflows the viewport, `update_streams` and
    `reset_streams` maintain the histories. The application is an
    immutable record and every operation returns the next one. */
module Model {
  import opened Wrappers
  import Stream
  import Graph

  datatype Screen = Main | Streams

  /** Whether `scroll` names the first or the last stream on screen. */
  datatype ScrollAnchor = Top | Bottom

  /** A sampling interval in whole seconds, and the number of samples
      between two tick lines of the graph. */
  datatype Interval = Interval(seconds: nat, tickSpacing: nat)

  const Intervals: seq<Interval> := [
    Interval(1, 10), Interval(2, 10), Interval(3, 10), Interval(5, 12),
    Interval(10, 12), Interval(30, 10), Interval(60, 10), Interval(300, 12)]

  const DefaultIntervalIndex: nat := 2

  /** `StreamWrapper`: a stream with the samples taken so far, oldest
      first, and its two display flags. */
  datatype Entry = Entry(stream: Stream.SimpleStream, values: seq<Option<real>>, active: bool, expanded: bool)

  datatype App = App(
    running: bool,
    width: nat,
    height: nat,
    screen: Screen,
    streams: seq<Entry>,
    selection: nat,
    scroll: nat,
    anchor: ScrollAnchor,
    intervalIndex: nat)

  /** `StreamWrapper::new`: active, collapsed, and nothing sampled yet. */
  function NewEntry(s: Stream.SimpleStream): (e: Entry)
    ensures e.stream == s && e.values == [] && e.active && !e.expanded
  {
    Entry(s, [], true, false)
  }

  /** `Application::new`. */
  function NewApp(width: nat, height: nat, streams: seq<Stream.SimpleStream>): (app: App)
    ensures app.running && app.screen == Main
    ensures app.width == width && app.height == height
    ensures |app.streams| == |streams|
    ensures forall i :: 0 <= i < |streams| ==> app.streams[i] == NewEntry(streams[i])
    ensures app.selection == 0 && app.scroll == 0 && app.anchor == Top
    ensures app.intervalIndex == DefaultIntervalIndex
  {
    App(true, width, height, Main, seq(|streams|, i requires 0 <= i < |streams| => NewEntry(streams[i])),
        0, 0, Top, DefaultIntervalIndex)
  }

  /** `interval()`: every catalogue entry has a positive duration, and its
      tick spacing leaves room for a nine-column time label. */
  function IntervalOf(app: App): (i: Interval)
    requires app.intervalIndex < |Intervals|
    ensures i.seconds > 0 && i.tickSpacing >= 10
    ensures i in Intervals
  {
    Intervals[app.intervalIndex]
  }

  /** `active_streams()`: the active entries, in order. */
  function Active(entries: seq<Entry>): (r: seq<Entry>)
    ensures |r| <= |entries|
  {
    if |entries| == 0 then []
    else if entries[0].active then [entries[0]] + Active(entries[1..])
    else Active(entries[1..])
  }

  /** The active list holds the active entries and nothing else. */
  lemma {:induction false} ActiveMembers(entries: seq<Entry>)
    ensures forall e :: e in Active(entries) <==> e in entries && e.active
  {
    if |entries| > 0 {
      ActiveMembers(entries[1..]);
      assert forall e :: e in entries <==> e == entries[0] || e in entries[1..];
    }
  }

  function ActiveCount(entries: seq<Entry>): nat {
    |Active(entries)|
  }

  /** `StreamWrapper::height` (src/view.rs): one line for the name and the
      graph, and five more rows of graph when expanded. */
  function Height(e: Entry): (h: nat)
    ensures h >= 1
    ensures h > 1 <==> e.expanded
  {
    if e.expanded then 1 + Graph.ExpandedGraphHeight else 1
  }

  /** The application's invariant: a valid catalogue index, a selection
      among the active streams (0 when there are none), and a scroll
      position the viewport can slice at: up to the end of the list for
      the top anchor, on a stream for the bottom anchor. */
  predicate Valid(app: App) {
    && app.intervalIndex < |Intervals|
    && (if ActiveCount(app.streams) == 0 then app.selection == 0
        else app.selection < ActiveCount(app.streams))
    && ScrollValid(app)
  }

  predicate ScrollValid(app: App) {
    match app.anchor
    case Top => app.scroll <= ActiveCount(app.streams)
    case Bottom => app.scroll < ActiveCount(app.streams)
  }

  lemma NewAppValid(width: nat, height: nat, streams: seq<Stream.SimpleStream>)
    ensures Valid(NewApp(width, height, streams))
  {
  }

  // ---------------------------------------------------------------------
  // The viewport.

  function Heights(entries: seq<Entry>): (hs: seq<nat>)
    ensures |hs| == |entries|
    ensures forall k :: 0 <= k < |entries| ==> hs[k] == Height(entries[k])
  {
    seq(|entries|, k requires 0 <= k < |entries| => Height(entries[k]))
  }

  function Reverse(s: seq<nat>): (r: seq<nat>)
    ensures |r| == |s|
    ensures forall k :: 0 <= k < |s| ==> r[k] == s[|s| - 1 - k]
  {
    seq(|s|, k requires 0 <= k < |s| => s[|s| - 1 - k])
  }

  function SumOf(hs: seq<nat>): nat {
    if |hs| == 0 then 0 else hs[0] + SumOf(hs[1..])
  }

  /** How many rows of a run fit in `available` lines, taken greedily from
      the front until one does not fit. */
  function FitCount(hs: seq<nat>, available: nat): (n: nat)
    ensures n <= |hs|
  {
    if |hs| == 0 || hs[0] > available then 0
    else 1 + FitCount(hs[1..], available - hs[0])
  }

  /** The indices, among the active streams, of the first and the last
      stream on screen. */
  datatype Span = Span(top: nat, bottom: nat)

  /** The rows counted from the anchor: downwards from a top anchor,
      upwards from a bottom anchor. */
  function Run(app: App): seq<nat>
    requires ScrollValid(app)
  {
    var hs := Heights(Active(app.streams));
    if app.anchor == Top then hs[app.scroll..] else Reverse(hs[..app.scroll + 1])
  }

  /** The span of streams `scroll_to_stream` takes to be completely
      visible: the anchored stream and the streams after (or before) it
      that fit in the screen's body, two lines being taken by the bars.
      The anchored stream counts even when it does not fit. The span is
      well formed and anchored at the scroll position: the top anchor's
      span grows downwards, the bottom anchor's upwards without running
      past the first stream. */
  function Visible(app: App): (v: Span)
    requires ScrollValid(app) && app.height >= 2
    ensures v.top <= v.bottom
    ensures app.anchor == Top ==> v.top == app.scroll
    ensures app.anchor == Bottom ==> v.bottom == app.scroll
    ensures app.scroll < ActiveCount(app.streams) ==> v.bottom < ActiveCount(app.streams)
  {
    var count := FitCount(Run(app), app.height - 2);
    var counted := if count > 0 then count - 1 else 0;
    if app.anchor == Top then Span(app.scroll, app.scroll + counted)
    else Span(app.scroll - counted, app.scroll)
  }

  /** `scroll_to_stream`: a target above the visible span becomes the top
      stream, one below it the bottom stream, and one inside it leaves the
      viewport alone. */
  function ScrollToStream(app: App, index: nat): (r: App)
    requires ScrollValid(app) && app.height >= 2
    requires index < ActiveCount(app.streams)
    ensures r == app.(scroll := r.scroll, anchor := r.anchor)
    ensures ScrollValid(r)
    ensures Visible(r).top <= index <= Visible(r).bottom
    ensures index < Visible(app).top ==> r.scroll == index && r.anchor == Top
    ensures index > Visible(app).bottom ==> r.scroll == index && r.anchor == Bottom
    ensures Visible(app).top <= index <= Visible(app).bottom ==> r == app
  {
    var v := Visible(app);
    if index < v.top then app.(scroll := index, anchor := Top)
    else if index > v.bottom then app.(scroll := index, anchor := Bottom)
    else app
  }

  lemma PrefixCons(hs: seq<nat>, j: nat)
    requires 1 <= j <= |hs|
    ensures hs[..j] == [hs[0]] + hs[1..][..j - 1]
    ensures SumOf(hs[..j]) == hs[0] + SumOf(hs[1..][..j - 1])
  {
    assert hs[..j][1..] == hs[1..][..j - 1];
  }

  /** The greedy count is the longest prefix that fits: its rows fit, and
      one more row would not. */
  lemma {:induction false} FitCountIsLongestFit(hs: seq<nat>, available: nat)
    ensures SumOf(hs[..FitCount(hs, available)]) <= available
    ensures FitCount(hs, available) < |hs| ==> SumOf(hs[..FitCount(hs, available) + 1]) > available
  {
    if |hs| == 0 {
      assert hs[..0] == [];
    } else if hs[0] > available {
      assert hs[..0] == [];
      PrefixCons(hs, 1);
    } else {
      var rest := FitCount(hs[1..], available - hs[0]);
      FitCountIsLongestFit(hs[1..], available - hs[0]);
      PrefixCons(hs, rest + 1);
      if rest + 1 < |hs| {
        PrefixCons(hs, rest + 2);
      }
    }
  }

  lemma {:induction false} SumAppend(a: seq<nat>, b: seq<nat>)
    ensures SumOf(a + b) == SumOf(a) + SumOf(b)
  {
    if |a| > 0 {
      assert (a + b)[0] == a[0];
      assert (a + b)[1..] == a[1..] + b;
      SumAppend(a[1..], b);
    } else {
      assert a + b == b;
    }
  }

  /** Reversing a run does not change its total height. */
  lemma {:induction false} SumReverse(x: seq<nat>)
    ensures SumOf(Reverse(x)) == SumOf(x)
  {
    if |x| > 0 {
      assert Reverse(x) == Reverse(x[1..]) + [x[0]];
      SumAppend(Reverse(x[1..]), [x[0]]);
      SumReverse(x[1..]);
      assert SumOf([x[0]]) == x[0] + SumOf([]);
    }
  }

  lemma ReversePrefix(hs: seq<nat>, s: nat, c: nat)
    requires 1 <= c <= s + 1 <= |hs|
    ensures Reverse(hs[..s + 1])[..c] == Reverse(hs[s + 1 - c..s + 1])
  {
  }

  lemma SuffixPrefix(hs: seq<nat>, s: nat, c: nat)
    requires s + c <= |hs|
    ensures hs[s..][..c] == hs[s..s + c]
  {
  }

  /** `v` is the longest run of whole rows from the anchor that fits in
      `a` lines: its rows fit, and the next row beyond its free end would
      not. */
  predicate LongestFit(hs: seq<nat>, v: Span, anchor: ScrollAnchor, a: nat) {
    && v.top <= v.bottom < |hs|
    && SumOf(hs[v.top..v.bottom + 1]) <= a
    && (anchor == Top && v.bottom + 1 < |hs| ==> SumOf(hs[v.top..v.bottom + 2]) > a)
    && (anchor == Bottom && v.top > 0 ==> SumOf(hs[v.top - 1..v.bottom + 1]) > a)
  }

  /** From a top anchor at `sc`, the counted streams fit and one more
      would not. */
  lemma TopRunFits(hs: seq<nat>, sc: nat, a: nat)
    requires sc < |hs| && hs[sc] <= a
    ensures FitCount(hs[sc..], a) >= 1
    ensures LongestFit(hs, Span(sc, sc + FitCount(hs[sc..], a) - 1), Top, a)
  {
    var c := FitCount(hs[sc..], a);
    FitCountIsLongestFit(hs[sc..], a);
    SuffixPrefix(hs, sc, c);
    if sc + c < |hs| {
      SuffixPrefix(hs, sc, c + 1);
    }
  }

  /** From a bottom anchor at `sc`, the counted streams fit and one more
      would not. */
  lemma BottomRunFits(hs: seq<nat>, sc: nat, a: nat)
    requires sc < |hs| && hs[sc] <= a
    ensures 1 <= FitCount(Reverse(hs[..sc + 1]), a) <= sc + 1
    ensures LongestFit(hs, Span(sc + 1 - FitCount(Reverse(hs[..sc + 1]), a), sc), Bottom, a)
  {
    var c := FitCount(Reverse(hs[..sc + 1]), a);
    BottomRunCount(hs, sc, a);
    BottomRunSums(hs, sc, a, c);
  }

  lemma BottomRunCount(hs: seq<nat>, sc: nat, a: nat)
    requires sc < |hs| && hs[sc] <= a
    ensures 1 <= FitCount(Reverse(hs[..sc + 1]), a) <= sc + 1
  {
    assert Reverse(hs[..sc + 1])[0] == hs[sc];
  }

  lemma BottomRunSums(hs: seq<nat>, sc: nat, a: nat, c: nat)
    requires sc < |hs| && c == FitCount(Reverse(hs[..sc + 1]), a) && 1 <= c <= sc + 1
    ensures SumOf(hs[sc + 1 - c..sc + 1]) <= a
    ensures c < sc + 1 ==> SumOf(hs[sc - c..sc + 1]) > a
  {
    FitCountIsLongestFit(Reverse(hs[..sc + 1]), a);
    ReversedPrefixSum(hs, sc, c);
    if c < sc + 1 {
      ReversedPrefixSum(hs, sc, c + 1);
    }
  }

  /** The first `c` rows counted upwards from `sc` are the rows
      `sc + 1 - c` to `sc`, in the other order. */
  lemma ReversedPrefixSum(hs: seq<nat>, sc: nat, c: nat)
    requires 1 <= c <= sc + 1 <= |hs|
    ensures SumOf(Reverse(hs[..sc + 1])[..c]) == SumOf(hs[sc + 1 - c..sc + 1])
  {
    ReversePrefix(hs, sc, c);
    SumReverse(hs[sc + 1 - c..sc + 1]);
  }

  /** The visible span is exactly the longest run of whole streams,
      counted from the anchor, that fits the screen's body. This holds
      whenever the anchored stream fits by itself. */
  lemma VisibleRowsFit(app: App)
    requires ScrollValid(app) && app.height >= 2
    requires app.scroll < ActiveCount(app.streams)
    requires Height(Active(app.streams)[app.scroll]) <= app.height - 2
    ensures LongestFit(Heights(Active(app.streams)), Visible(app), app.anchor, app.height - 2)
  {
    var hs := Heights(Active(app.streams));
    var sc := app.scroll;
    var a: nat := app.height - 2;
    if app.anchor == Top {
      TopRunFits(hs, sc, a);
      assert Run(app) == hs[sc..];
    } else {
      BottomRunFits(hs, sc, a);
      assert Run(app) == Reverse(hs[..sc + 1]);
    }
  }

  // ---------------------------------------------------------------------
  // Expanding a stream.

  /** The position, in the full list, of the `n`-th active entry: the
      entry `nth` finds, with exactly `n` active entries before it. */
  function NthActive(entries: seq<Entry>, n: nat): (p: nat)
    requires n < ActiveCount(entries)
    ensures p < |entries| && entries[p].active
    ensures Active(entries)[n] == entries[p]
    ensures ActiveCount(entries[..p]) == n
  {
    if entries[0].active && n == 0 then
      assert entries[..0] == [];
      0
    else
      var q := NthActive(entries[1..], if entries[0].active then n - 1 else n);
      ActivePrefixStep(entries, q + 1);
      q + 1
  }

  lemma ActivePrefixStep(entries: seq<Entry>, p: nat)
    requires 1 <= p <= |entries|
    ensures ActiveCount(entries[..p]) == (if entries[0].active then 1 else 0) + ActiveCount(entries[1..][..p - 1])
  {
    assert entries[..p][1..] == entries[1..][..p - 1];
  }

  function Flip(e: Entry): Entry {
    e.(expanded := !e.expanded)
  }

  /** Replacing an entry by one with the same `active` flag and height
      leaves the active list's length and heights as they were, except for
      that entry's own height. */
  lemma {:induction false} ActiveAfterUpdate(entries: seq<Entry>, p: nat, e: Entry)
    requires p < |entries| && e.active == entries[p].active
    ensures ActiveCount(entries[p := e]) == ActiveCount(entries)
  {
    if p > 0 {
      assert entries[p := e][1..] == entries[1..][p - 1 := e];
      ActiveAfterUpdate(entries[1..], p - 1, e);
    } else {
      assert entries[p := e][1..] == entries[1..];
    }
  }

  /** Two lists whose entries have the same flags show the same active
      streams with the same heights. */
  lemma {:induction false} SameShape(a: seq<Entry>, b: seq<Entry>)
    requires |a| == |b|
    requires forall i :: 0 <= i < |a| ==> a[i].active == b[i].active && a[i].expanded == b[i].expanded
    ensures ActiveCount(a) == ActiveCount(b)
    ensures Heights(Active(a)) == Heights(Active(b))
  {
    if |a| > 0 {
      SameShape(a[1..], b[1..]);
    }
  }

  // ---------------------------------------------------------------------
  // Events.

  /** The keys the application distinguishes; every other key is `OtherKey`. */
  datatype Key = Up | Down | Esc | Char(c: char) | OtherKey

  datatype MouseButton = Left | Right | Middle | WheelUp | WheelDown

  /** A decoded terminal event; pointer positions are not used. */
  datatype Event = KeyEvent(key: Key) | MousePress(button: MouseButton) | OtherMouse | Unsupported

  /** The next application, and whether the event changed anything. */
  datatype Step = Step(app: App, changed: bool)

  /** What a key on the main screen needs in order not to panic: moving
      the selection reflows the viewport, which reserves two lines for the
      bars; Down computes the last active index; Space unwraps the
      selected active stream. */
  predicate KeyDefined(app: App, k: Key) {
    match k
    case Up => app.selection > 0 ==> app.height >= 2
    case Down =>
      ActiveCount(app.streams) > 0
      && (app.selection < ActiveCount(app.streams) - 1 ==> app.height >= 2)
    case Char(c) => c == ' ' ==> app.selection < ActiveCount(app.streams) && app.height >= 2
    case _ => true
  }

  /** The key a main-screen event amounts to: the wheel moves the selection
      like the arrow keys, wheel up like Down and wheel down like Up. */
  function AsKey(e: Event): Key {
    match e
    case KeyEvent(k) => k
    case MousePress(WheelUp) => Down
    case MousePress(WheelDown) => Up
    case _ => OtherKey
  }

  predicate Defined(app: App, e: Event) {
    app.screen == Main ==> KeyDefined(app, AsKey(e))
  }

  /** A key on the main screen; no key changes the stored terminal size or
      the set of streams, and a key that reports no change changes
      nothing. */
  function HandleMainKey(app: App, k: Key): (r: Step)
    requires Valid(app) && app.screen == Main && KeyDefined(app, k)
    ensures r.app.width == app.width && r.app.height == app.height
    ensures |r.app.streams| == |app.streams|
    ensures !r.changed ==> r.app == app
  {
    match k
    case Up =>
      if app.selection > 0 then
        Step(ScrollToStream(app.(selection := app.selection - 1), app.selection - 1), true)
      else Step(app, false)
    case Down =>
      if app.selection < ActiveCount(app.streams) - 1 then
        Step(ScrollToStream(app.(selection := app.selection + 1), app.selection + 1), true)
      else Step(app, false)
    case Char(c) =>
      if c == ' ' then
        var p := NthActive(app.streams, app.selection);
        ActiveAfterUpdate(app.streams, p, Flip(app.streams[p]));
        Step(ScrollToStream(app.(streams := app.streams[p := Flip(app.streams[p])]), app.selection), true)
      else if c == 's' then Step(app.(screen := Streams), true)
      else if c == '+' then
        if app.intervalIndex < |Intervals| - 1 then Step(app.(intervalIndex := app.intervalIndex + 1), true)
        else Step(app, false)
      else if c == '-' then
        if app.intervalIndex > 0 then Step(app.(intervalIndex := app.intervalIndex - 1), true)
        else Step(app, false)
      else if c == 'q' then Step(app.(running := false), true)
      else Step(app, false)
    case _ => Step(app, false)
  }

  /** `handle`: on the main screen, keys and wheel presses act as above;
      on the stream screen only Esc does anything, returning to the main
      screen. */
  function Handle(app: App, e: Event): (r: Step)
    requires Valid(app) && Defined(app, e)
    ensures r.app.width == app.width && r.app.height == app.height
    ensures |r.app.streams| == |app.streams|
    ensures !r.changed ==> r.app == app
  {
    match app.screen
    case Main =>
      if e.KeyEvent? || e == MousePress(WheelUp) || e == MousePress(WheelDown) then
        HandleMainKey(app, AsKey(e))
      else Step(app, false)
    case Streams =>
      if e == KeyEvent(Esc) then Step(app.(screen := Main), true)
      else Step(app, false)
  }

  /** On the main screen, keys and wheel presses are handled as keys. */
  lemma MainAsKey(app: App, e: Event)
    requires Valid(app) && app.screen == Main && Defined(app, e)
    requires e.KeyEvent? || e.MousePress?
    ensures e.MousePress? && e.button !in {WheelUp, WheelDown} ==> Handle(app, e) == Step(app, false)
    ensures e.KeyEvent? || e.button in {WheelUp, WheelDown} ==> Handle(app, e) == HandleMainKey(app, AsKey(e))
  {
  }

  lemma UpStep(app: App)
    requires Valid(app) && app.screen == Main && KeyDefined(app, Up)
    ensures HandleMainKey(app, Up).changed <==> app.selection > 0
    ensures !HandleMainKey(app, Up).changed ==> HandleMainKey(app, Up).app == app
    ensures HandleMainKey(app, Up).changed ==>
              var r := HandleMainKey(app, Up).app;
              r == app.(selection := app.selection - 1, scroll := r.scroll, anchor := r.anchor)
              && Valid(r) && r.height >= 2
              && Visible(r).top <= r.selection <= Visible(r).bottom
  {
  }

  lemma DownStep(app: App)
    requires Valid(app) && app.screen == Main && KeyDefined(app, Down)
    ensures HandleMainKey(app, Down).changed <==> app.selection < ActiveCount(app.streams) - 1
    ensures !HandleMainKey(app, Down).changed ==> HandleMainKey(app, Down).app == app
    ensures HandleMainKey(app, Down).changed ==>
              var r := HandleMainKey(app, Down).app;
              r == app.(selection := app.selection + 1, scroll := r.scroll, anchor := r.anchor)
              && Valid(r) && r.height >= 2
              && Visible(r).top <= r.selection <= Visible(r).bottom
  {
  }

  lemma SpaceStep(app: App)
    requires Valid(app) && app.screen == Main && KeyDefined(app, Char(' '))
    ensures var r := HandleMainKey(app, Char(' '));
            var p := NthActive(app.streams, app.selection);
            r.changed
            && r.app == app.(streams := app.streams[p := Flip(app.streams[p])],
                             scroll := r.app.scroll, anchor := r.app.anchor)
            && Valid(r.app) && r.app.height >= 2
            && Visible(r.app).top <= r.app.selection <= Visible(r.app).bottom
  {
    var p := NthActive(app.streams, app.selection);
    ActiveAfterUpdate(app.streams, p, Flip(app.streams[p]));
  }

  /** Up (or wheel down) moves the selection up by one and scrolls it into
      view; at the first stream it reports no change and changes nothing.
      Wheel down is exactly Up. */
  lemma SelectUp(app: App, e: Event)
    requires Valid(app) && app.screen == Main && Defined(app, e)
    requires e == KeyEvent(Up) || e == MousePress(WheelDown)
    ensures Handle(app, e) == Handle(app, KeyEvent(Up))
    ensures Handle(app, e).changed <==> app.selection > 0
    ensures !Handle(app, e).changed ==> Handle(app, e).app == app
    ensures Handle(app, e).changed ==>
              var r := Handle(app, e).app;
              r == app.(selection := app.selection - 1, scroll := r.scroll, anchor := r.anchor)
              && Valid(r) && r.height >= 2
              && Visible(r).top <= r.selection <= Visible(r).bottom
  {
    MainAsKey(app, e);
    MainAsKey(app, KeyEvent(Up));
    UpStep(app);
  }

  /** Down (or wheel up) moves the selection down by one and scrolls it
      into view; at the last active stream it reports no change and changes
      nothing. Wheel up is exactly Down. */
  lemma SelectDown(app: App, e: Event)
    requires Valid(app) && app.screen == Main && Defined(app, e)
    requires e == KeyEvent(Down) || e == MousePress(WheelUp)
    ensures Handle(app, e) == Handle(app, KeyEvent(Down))
    ensures Handle(app, e).changed <==> app.selection < ActiveCount(app.streams) - 1
    ensures !Handle(app, e).changed ==> Handle(app, e).app == app
    ensures Handle(app, e).changed ==>
              var r := Handle(app, e).app;
              r == app.(selection := app.selection + 1, scroll := r.scroll, anchor := r.anchor)
              && Valid(r) && r.height >= 2
              && Visible(r).top <= r.selection <= Visible(r).bottom
  {
    MainAsKey(app, e);
    MainAsKey(app, KeyEvent(Down));
    DownStep(app);
  }

  /** Space flips the expanded flag of the selected active stream and of
      nothing else, keeps every history and the selection, scrolls the
      selection into view, and reports a change. */
  lemma ToggleExpanded(app: App)
    requires Valid(app) && app.screen == Main && Defined(app, KeyEvent(Char(' ')))
    ensures var r := Handle(app, KeyEvent(Char(' ')));
            var p := NthActive(app.streams, app.selection);
            r.changed
            && |r.app.streams| == |app.streams|
            && r.app.streams[p].expanded == !app.streams[p].expanded
            && (forall i :: 0 <= i < |app.streams| && i != p ==> r.app.streams[i] == app.streams[i])
            && r.app.streams[p].values == app.streams[p].values
            && r.app.streams[p].active && r.app.streams[p].stream == app.streams[p].stream
            && r.app.selection == app.selection
            && Valid(r.app) && r.app.height >= 2
            && Visible(r.app).top <= r.app.selection <= Visible(r.app).bottom
  {
    MainAsKey(app, KeyEvent(Char(' ')));
    SpaceStep(app);
  }

  /** `+` and `-` step through the interval catalogue and report a change
      only when they stay inside it; nothing else changes. */
  lemma StepInterval(app: App, c: char)
    requires Valid(app) && app.screen == Main && (c == '+' || c == '-')
    ensures var r := Handle(app, KeyEvent(Char(c)));
            var moved := if c == '+' then app.intervalIndex < |Intervals| - 1 else app.intervalIndex > 0;
            (r.changed <==> moved)
            && (moved ==> r.app == app.(intervalIndex := if c == '+' then app.intervalIndex + 1
                                                           else app.intervalIndex - 1))
            && (!moved ==> r.app == app)
            && r.app.intervalIndex < |Intervals|
  {
    MainAsKey(app, KeyEvent(Char(c)));
  }

  /** `q` stops the application and `s` opens the stream screen; any key
      the main screen does not know, and any other mouse event, changes
      nothing and reports no change. */
  lemma OtherMainKeys(app: App, e: Event)
    requires Valid(app) && app.screen == Main
    ensures e == KeyEvent(Char('q')) ==> Handle(app, e) == Step(app.(running := false), true)
    ensures e == KeyEvent(Char('s')) ==> Handle(app, e) == Step(app.(screen := Streams), true)
    ensures AsKey(e) !in {Up, Down, Char(' '), Char('s'), Char('+'), Char('-'), Char('q')} ==>
              Handle(app, e) == Step(app, false)
  {
  }

  /** On the stream screen, Esc returns to the main screen; every other
      event reports no change and changes nothing. */
  lemma StreamScreen(app: App, e: Event)
    requires Valid(app) && app.screen == Streams
    ensures e == KeyEvent(Esc) ==> Handle(app, e) == Step(app.(screen := Main), true)
    ensures e != KeyEvent(Esc) ==> Handle(app, e) == Step(app, false)
  {
  }

  /** Every event keeps the application valid, and while the application
      runs, `handle` reports a change exactly when the application
      changed. */
  lemma HandleStep(app: App, e: Event)
    requires Valid(app) && Defined(app, e)
    ensures Valid(Handle(app, e).app)
    ensures app.running ==> (Handle(app, e).changed <==> Handle(app, e).app != app)
  {
    if app.screen == Main && (e.KeyEvent? || e.MousePress?) {
      MainAsKey(app, e);
      if e.KeyEvent? || e.button in {WheelUp, WheelDown} {
        MainKeyStep(app, AsKey(e));
      }
    }
  }

  lemma MainKeyStep(app: App, k: Key)
    requires Valid(app) && app.screen == Main && KeyDefined(app, k)
    ensures Valid(HandleMainKey(app, k).app)
    ensures app.running ==> (HandleMainKey(app, k).changed <==> HandleMainKey(app, k).app != app)
  {
    match k
    case Up => UpStep(app);
    case Down => DownStep(app);
    case Char(c) =>
      if c == ' ' {
        SpaceStep(app);
        var p := NthActive(app.streams, app.selection);
        assert HandleMainKey(app, k).app.streams[p] != app.streams[p];
      }
    case _ =>
  }

  // ---------------------------------------------------------------------
  // Histories and screen size.

  /** A sample a stream may report: `update_streams` asserts that a
      present sample is within the declared bounds (and finite, which
      every `real` is). */
  predicate Allowed(s: Stream.SimpleStream, v: Option<real>) {
    v.Some? ==>
      (s.min.Some? ==> s.min.value <= v.value) && (s.max.Some? ==> v.value <= s.max.value)
  }

  /** One sample per entry; those of inactive entries are not taken. */
  predicate SamplesAllowed(entries: seq<Entry>, samples: seq<Option<real>>) {
    |samples| == |entries|
    && forall i :: 0 <= i < |entries| && entries[i].active ==> Allowed(entries[i].stream, samples[i])
  }

  /** Every recorded sample respects its stream's bounds. */
  predicate HistoriesAllowed(entries: seq<Entry>) {
    forall i, k :: 0 <= i < |entries| && 0 <= k < |entries[i].values| ==>
      Allowed(entries[i].stream, entries[i].values[k])
  }

  /** `update_streams`: every active entry records its new sample. */
  function UpdateStreams(app: App, samples: seq<Option<real>>): (r: App)
    requires SamplesAllowed(app.streams, samples)
    ensures |r.streams| == |app.streams|
    ensures forall i :: 0 <= i < |r.streams| ==>
              |r.streams[i].values| >= |app.streams[i].values|
              && r.streams[i].values[..|app.streams[i].values|] == app.streams[i].values
  {
    var entries := app.streams;
    app.(streams := seq(|entries|, i requires 0 <= i < |entries| =>
      if entries[i].active then entries[i].(values := entries[i].values + [samples[i]])
      else entries[i]))
  }

  /** `reset_streams`: every history is cleared. */
  function ResetStreams(app: App): App {
    var entries := app.streams;
    app.(streams := seq(|entries|, i requires 0 <= i < |entries| => entries[i].(values := [])))
  }

  /** `resize`: only the stored size changes. */
  function Resize(app: App, width: nat, height: nat): App {
    app.(width := width, height := height)
  }

  /** Sampling appends exactly one sample to each active history, leaves
      inactive entries and everything else as they were, keeps the
      histories within their bounds, and keeps the application valid with
      the same viewport. */
  lemma UpdateAppendsOne(app: App, samples: seq<Option<real>>)
    requires SamplesAllowed(app.streams, samples)
    ensures var r := UpdateStreams(app, samples);
            r == app.(streams := r.streams)
            && |r.streams| == |app.streams|
            && (forall i :: 0 <= i < |app.streams| && app.streams[i].active ==>
                  r.streams[i] == app.streams[i].(values := app.streams[i].values + [samples[i]]))
            && (forall i :: 0 <= i < |app.streams| && !app.streams[i].active ==>
                  r.streams[i] == app.streams[i])
            && (HistoriesAllowed(app.streams) ==> HistoriesAllowed(r.streams))
            && (Valid(app) ==> Valid(r))
            && Heights(Active(r.streams)) == Heights(Active(app.streams))
  {
    var r := UpdateStreams(app, samples);
    SameShape(app.streams, r.streams);
    if HistoriesAllowed(app.streams) {
      forall i, k | 0 <= i < |r.streams| && 0 <= k < |r.streams[i].values|
        ensures Allowed(r.streams[i].stream, r.streams[i].values[k])
      {
        if app.streams[i].active && k == |app.streams[i].values| {
        } else {
          assert r.streams[i].values[k] == app.streams[i].values[k];
        }
      }
    }
  }

  /** Resetting empties every history and changes nothing else, keeping
      the application valid with the same viewport. */
  lemma ResetEmpties(app: App)
    ensures var r := ResetStreams(app);
            r == app.(streams := r.streams)
            && |r.streams| == |app.streams|
            && (forall i :: 0 <= i < |app.streams| ==> r.streams[i] == app.streams[i].(values := []))
            && HistoriesAllowed(r.streams)
            && (Valid(app) ==> Valid(r))
            && Heights(Active(r.streams)) == Heights(Active(app.streams))
  {
    SameShape(app.streams, ResetStreams(app).streams);
  }

  /** Resizing keeps the application valid: the scroll position is not
      touched, so it still indexes the same active streams. */
  lemma ResizeKeepsValid(app: App, width: nat, height: nat)
    requires Valid(app)
    ensures Valid(Resize(app, width, height))
    ensures Resize(app, width, height).streams == app.streams
    ensures Resize(app, width, height).scroll == app.scroll
  {
  }

  /** Resizing does not reflow the viewport, so a selection that was in
      view can end up outside the visible span: three collapsed streams
      on ten rows, the third selected, then a terminal three rows high. */
  lemma ResizeCanHideSelection()
    ensures var s := Stream.SimpleStream("", "", None, None, "", false, 0, 0);
            var app := App(true, 80, 10, Main, [NewEntry(s), NewEntry(s), NewEntry(s)], 2, 0, Top, 2);
            var r := Resize(app, 80, 3);
            Valid(app) && Visible(app) == Span(0, 2)
            && Valid(r) && Visible(r) == Span(0, 0) && r.selection == 2
  {
    var s := Stream.SimpleStream("", "", None, None, "", false, 0, 0);
    var e := NewEntry(s);
    var app := App(true, 80, 10, Main, [e, e, e], 2, 0, Top, 2);
    assert [e][1..] == [];
    assert Active([e]) == [e];
    assert [e, e][1..] == [e];
    assert Active([e, e]) == [e, e];
    assert [e, e, e][1..] == [e, e];
    assert Active([e, e, e]) == [e, e, e];
    var hs := Heights([e, e, e]);
    assert hs == [1, 1, 1];
    assert FitCount([1], 6) == 1 by {
      assert [1][1..] == [];
    }
    assert FitCount([1, 1], 7) == 2 by {
      assert [1, 1][1..] == [1];
    }
    assert FitCount([1, 1, 1], 8) == 3 by {
      assert [1, 1, 1][1..] == [1, 1];
    }
    assert FitCount([1, 1, 1], 1) == 1 by {
      assert [1, 1, 1][1..] == [1, 1];
      assert FitCount([1, 1], 0) == 0;
    }
  }

  /** A history whose samples respect the stream's bounds is drawn on a
      scale that covers it: every sample in the graph's window is at most
      the declared maximum, so the bar lookup stays in the table. */
  lemma HistoryOnScale(e: Entry, graphWidth: nat)
    requires forall k :: 0 <= k < |e.values| ==> Allowed(e.stream, e.values[k])
    ensures Graph.BelowDeclared(Graph.Window(e.values, graphWidth), e.stream.max)
  {
    var w := Graph.Window(e.values, graphWidth);
    forall j | 0 <= j < |w| && w[j].Some? && e.stream.max.Some?
      ensures w[j].value <= e.stream.max.value
    {
      assert Allowed(e.stream, e.values[|e.values| - (graphWidth - j)]);
    }
  }

  /** Events leave every entry's stream, activity and history alone; only
      Space changes an entry, and only its expanded flag. */
  lemma HandleKeepsEntries(app: App, e: Event)
    requires Valid(app) && Defined(app, e)
    ensures var r := Handle(app, e).app;
            |r.streams| == |app.streams|
            && forall i :: 0 <= i < |app.streams| ==>
                 r.streams[i] == app.streams[i].(expanded := r.streams[i].expanded)
  {
    if app.screen == Main && (e.KeyEvent? || e.MousePress?) {
      MainAsKey(app, e);
      if e.KeyEvent? || e.button in {WheelUp, WheelDown} {
        MainKeyKeepsEntries(app, AsKey(e));
      }
    }
  }

  lemma MainKeyKeepsEntries(app: App, k: Key)
    requires Valid(app) && app.screen == Main && KeyDefined(app, k)
    ensures var r := HandleMainKey(app, k).app;
            |r.streams| == |app.streams|
            && forall i :: 0 <= i < |app.streams| ==>
                 r.streams[i] == app.streams[i].(expanded := r.streams[i].expanded)
  {
    match k
    case Up => UpStep(app);
    case Down => DownStep(app);
    case Char(c) => if c == ' ' { SpaceStep(app); }
    case _ =>
  }
}
