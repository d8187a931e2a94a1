# hegemon in Dafny

hegemon is a terminal system monitor. It samples data streams (CPU load,
temperatures, fan speeds, memory, network bandwidth) at a fixed interval. It
draws each stream as a one-line bar graph, or a six-line graph when the stream
is expanded, next to its name and latest value. The time axis at the top of the
screen is labelled in hours, minutes and seconds.

This project models the core of that program as pure Dafny functions, and
proves what the core promises about them:

- **The application state machine** (`Model`):
  - the stream entries with their histories, active and expanded flags;
  - the screen (main or stream list);
  - the selection;
  - the two-anchor scroll position;
  - the catalogue of eight sampling intervals.

  `Handle` interprets key and mouse events, and `ScrollToStream` reflows the
  viewport. `UpdateStreams`, `ResetStreams` and `Resize` maintain the
  histories and the screen size.
- **The input reaction of the main loop** (`EventLoop`): quit, bell, redraw,
  or clear-and-resample after the interval changed.
- **The text helpers of the view**:
  - printed width with SGR escape sequences removed (`Printed`);
  - ellipsis and padding (`TextLayout`);
  - duration labels (`Duration`);
  - the SI prefix table and trailing-zero removal of quantities (`Quantity`);
  - decimal digits (`Decimal`).
- **The graph** (`Graph`):
  - the bar-glyph bucket rule;
  - the right-aligned sample window;
  - tick columns;
  - the five bands of an expanded graph;
  - the lo/hi/avg statistics;
  - the scale bounds.
- **The column arithmetic of the main screen** (`Layout`).
- **The stream contract** (`Stream`): `Stream::new`, the declared format width
  and the accessors.
- **The network rate calculator** (`Rate`): it turns a cumulative byte counter
  into bytes per second.

A sample a stream would take is an input to the model. So are the clock
readings of the rate calculator. Rust panics (`assert!`, `unwrap`, an
out-of-range index) become preconditions. Two `usize` subtractions can go
below zero: `self.height - 2` (src/model.rs:205) and
`self.active_streams().len() - 1` (src/model.rs:118). With overflow checks
these panic; in a release build they wrap around to a huge number. The model
requires them not to go below zero and does not reproduce the wrap-around. A
NaN produced by the source becomes `None`.

Behaviours of the code worth knowing, which the model keeps:

- `resize` only stores the new size. It does not scroll the selection back into
  view. `Model.ResizeCanHideSelection` shows a selection that was visible and
  no longer is after a resize.
- `scroll_to_stream` counts the streams that fit from the anchor, then
  subtracts one. That equals "the streams after the anchored one".
- When the anchored stream is itself taller than the screen body, the code
  still takes it as the whole visible span. `Model.Visible` does the same.

## Model

| member | source | states |
|---|---|---|
| Decimal.NatToString | src/view.rs:517 | an integer prints as base-ten digits without leading zeros that read back as the same integer; exactly one digit for numbers below ten |
| Decimal.NatToStringLength | src/stream.rs:104 | a number below 10^d prints in at most d digits, which is what the declared integer digit count relies on |
| Printed.PlainText | src/view.rs:536-541 | text without an escape character is left as it is, so its printed width is its character count |
| Printed.Strip | src/view.rs:536-540 | removing the SGR sequences never lengthens the text; `PlainText` and `SgrIsInvisible` state what is removed |
| Printed.PrintedWidth | src/view.rs:536-541 | the printed width is at most the character count, and equal to it for text without an escape character |
| Printed.SgrIsInvisible | src/view.rs:536-541 | a single `ESC [ ... m` sequence is removed completely: printed width 0 |
| Printed.OnlySgrIsInvisible | src/view.rs:627 | text made only of SGR sequences has printed width 0 |
| Printed.InsertSgr | src/view.rs:536-541 | inserting one SGR sequence after text whose escapes are all complete, or in front of any text, does not change the printed width |
| TextLayout.Ellipsize | src/view.rs:543-554 | with width > 0: text of at most `width` characters is returned unchanged; longer text becomes its first width-1 characters plus `…`, so the result has exactly min(length, width) characters |
| TextLayout.EllipsizeThenPad | src/view.rs:325 | an ellipsized description always fits its field, so padding it to the graph width is defined; without escapes it takes exactly min(length, width) columns |
| TextLayout.PadLeft | src/view.rs:556-562 | when the text fits, the result has printed width exactly `width`, ends with the text and starts with spaces only |
| TextLayout.PadRight | src/view.rs:564-570 | when the text fits, the result has printed width exactly `width`, starts with the text and continues with spaces only |
| Duration.DurationRoundTrip | src/view.rs:503-534 | reading the plain label back (hours, minutes and decimal seconds each times its unit) gives exactly the duration: no nonzero part is dropped and the parts add up |
| Duration.FormatDuration | src/view.rs:503-534 | the label of a duration; `DurationParts` states its shape, `DurationRoundTrip` that it reads back as the duration |
| Duration.DurationParts | src/view.rs:503-534 | for any split into h hours, m < 60 minutes and s < 60000 ms, the label is the hours, minutes and seconds components in this order, each present exactly when its amount is positive, and "0s" for 0; so every printed amount is positive and minutes and seconds stay below 60 |
| Duration.WholeSecondsLabelWidth | src/view.rs:503-534 | a label of whole seconds below 100 hours takes at most 9 printed columns, whatever SGR styles it carries |
| Duration.StyledDurationWidth | src/view.rs:503-534 | with SGR styles, the label's printed width equals the length of the unstyled label |
| Duration.DurationExamplesBelowHour | src/view.rs:608-611 | 0 s, 1 s, 60 s and 61 s print as "A0Bs", "A1Bs", "A1Bm" and "A1BmA1Bs" |
| Duration.DurationExamplesHours | src/view.rs:612-615 | 3600 s, 3660 s, 3601 s and 3661 s print as "A1Bh", "A1BhA1Bm", "A1BhA1Bs" and "A1BhA1BmA1Bs" |
| Duration.DurationExampleLong | src/view.rs:616-619 | 100000 s prints as "A27BhA46BmA40Bs" |
| Quantity.RemoveZeroTailIsLeftmostMatch | src/view.rs:496-497 | the zero-tail removal cuts the text at the leftmost position where `\.?0+$` matches, and keeps it whole when the pattern matches nowhere |
| Quantity.RemoveZeroTail | src/view.rs:494-498 | the zero-tail removal never lengthens the text; `RemoveZeroTailIsLeftmostMatch` states where it cuts |
| Quantity.StripFixed | src/view.rs:494-498 | removing the zero tail from a rounded number with decimals drops its trailing zero decimals, and the point when none remain ("-0.000" becomes "-0") |
| Quantity.StripKeepsValue | src/view.rs:494-498 | dropping trailing zero decimals never changes the number's value |
| Quantity.NumberTextValue | src/view.rs:492-498 | the printed number is the rounded number with its trailing zero decimals dropped, and it denotes the same value |
| Quantity.PrefixMeaning | src/view.rs:474-490 | magnitude m in -6..6 gets the SI prefix for 10^(3m), with none for 0; every other magnitude gets "?", which is no SI prefix |
| Quantity.Prefix | src/view.rs:474-490 | every prefix is one plain character, and none for magnitude 0 |
| Quantity.QuantityWidth | src/view.rs:500 | with SGR styles the printed width is the number's length plus the prefix (one column, none for magnitude 0) plus the unit's printed width |
| Quantity.FormatQuantity | src/view.rs:451-501 | the styled number, prefix and unit; `QuantityWidth` states its printed width and `NumberTextValue` its value |
| Quantity.QuantityExamplesWhole | src/view.rs:583-591 | the whole-number examples of the unit test print as expected ("A0BC", "A1BmC", "A999BC", "A1BkC", "A1BMC", ...) once the magnitude and rounding are given |
| Quantity.QuantityExamplePrefixed | src/view.rs:592 | 123.457 with magnitude 2 prints as "A123.457BMC" |
| Quantity.ZeroDecimalsText | src/view.rs:593 | three zero decimals are removed together with the point, whatever the sign and whole part |
| Quantity.QuantityExamplesNegative | src/view.rs:594-601 | -1.235 with magnitude -3 prints as "A-1.235BnC", and the negative zero "-0.000" as "A-0BC" |
| Quantity.QuantityExamplesUnknown | src/view.rs:602-603 | magnitudes 33 and -34 print the unknown prefix "?" |
| Stream.NewStream | src/stream.rs:68-112 | prefixes are used exactly when no integer digit count is given, and the accessors return the construction arguments |
| Stream.FormatWithinWidth | src/stream.rs:100-110 | every value that fits the declaration (sign allowed, integer digits, precision) prints within the declared format width, whatever SGR styles are used |
| Stream.NegativeCarryOverflows | src/view.rs:461-468 | a signed prefixed stream of precision 0 whose value rounds to "-1000" at magnitude 1 is outside the declared values, and prints "-1000k" one column wider than the declared width, because the carry test only looks for a leading "1000" |
| Stream.BandwidthStreamWidth | src/providers/network.rs:51-66 | the bandwidth streams use prefixes and declare a format width of 7 |
| Graph.BarIndexBuckets | src/view.rs:244-254 | above `min`, the bar index is k exactly when the value lies in the k-th eighth (Edge k, Edge k+1] of the range, in exact arithmetic |
| Graph.BarIndexAtMin | src/view.rs:244-254 | values at or below `min` get the lowest bar |
| Graph.BarIndexInRange | src/view.rs:244-255 | every value up to `max` has a glyph (index below 8), and `max` of a nonempty range gets the highest bar |
| Graph.BarIndexMonotonic | src/view.rs:244-254 | a larger value never gets a lower bar |
| Graph.BarIndex | src/view.rs:244-254 | the bucket rule; `BarIndexBuckets`, `BarIndexAtMin`, `BarIndexInRange` and `BarIndexMonotonic` state its properties |
| Graph.Symbol | src/view.rs:242-258 | the glyph of one sample; `SymbolCases` states its cases |
| Graph.SymbolCases | src/view.rs:242-258 | a dot exactly for a missing sample; the lowest bar when a bound is NaN or the sample is at or below `min`; the full block for `max` of a nonempty range; a larger sample never gets a lower bar |
| Graph.Window | src/view.rs:278-287 | the window has exactly `graph_width` columns; `WindowReference` states its contents |
| Graph.WindowReference | src/view.rs:278-287 | the window is the last `graph_width` samples, or the whole history after enough empty columns |
| Graph.WindowShift | src/view.rs:278-287 | a new sample enters at the right edge and the oldest column drops out on the left |
| Graph.WindowNewest | src/view.rs:278-287 | the rightmost column shows the newest sample |
| Graph.TickColumns | src/view.rs:260 | the rightmost column is a tick column, the columns fewer than `tick_spacing` places left of it are not, and tick columns repeat every `tick_spacing` columns, so there are none in between |
| Graph.RowsTileRange | src/view.rs:333-336 | in exact arithmetic, the five rows of an expanded graph tile the range from `min` to `max` without gap or overlap |
| Graph.BandShows | src/view.rs:338-353 | a row shows nothing (a dot) for a sample below it, a full bar for a sample above it, and the sample itself within it |
| Graph.Band | src/view.rs:338-353 | a row shows no sample exactly when the sample is missing or below the row, and a sample it shows always lies on the row's scale |
| Graph.FoldMinIsLowest | src/view.rs:291 | folding with `min` from NaN yields a number exactly when there is one, and then it is the smallest and one of them |
| Graph.FoldMin | src/view.rs:291 | `f64::min` folded from NaN; `FoldMinIsLowest` states its result |
| Graph.FoldMaxIsHighest | src/view.rs:292 | folding with `max` from NaN yields a number exactly when there is one, and then it is the largest and one of them |
| Graph.FoldMax | src/view.rs:292 | `f64::max` folded from NaN; `FoldMaxIsHighest` states its result |
| Graph.Statistics | src/view.rs:289-293 | lo, hi and avg exist exactly when the window holds a number, and then, in exact arithmetic, lo <= avg <= hi |
| Graph.NumbersContains | src/view.rs:289 | every sample present in the window is among the numbers the statistics use |
| Graph.ScaleCoversWindow | src/view.rs:295-296 | when samples respect the declared maximum, the top of the scale (declared, or derived from the samples) is at least every sample shown |
| Layout.NameWidthIsMax | src/view.rs:184-198 | the name width is the widest of the active streams' names and format widths, 0 when there are none |
| Layout.NameWidth | src/view.rs:184-198 | the name column's width; `NameWidthIsMax` states it is the widest name or format width |
| Layout.MaxFormatWidthIsMax | src/view.rs:203-207 | the widest format width is at least every stream's and equal to one of them, 0 when there are none |
| Layout.ValueWidthBounds | src/view.rs:200-211 | the value column is at least 9 wide ("lo/hi/avg") and at least every format width, and is exactly one of them |
| Layout.ValueWidth | src/view.rs:200-211 | the value column's width; `ValueWidthBounds` states its bounds |
| Layout.FieldsFit | src/view.rs:318 | a stream's name and values fit the name column, and its values fit the value column, so the padding is defined |
| Layout.MainColumns | src/view.rs:48-56 | the screen width, graph width, number of labels and first padding; `ColumnsAddUp` and `TickLabelsAlign` state how they fit |
| Layout.ColumnsAddUp | src/view.rs:48-69 | graph width >= 1; name, space, graph, space and value columns add up to the screen width; so do the top bar's padding, `tick_spacing` columns per label, "Now" and the rest. Each label field is `tick_spacing` wide when the label fits, which `TickLabelFits` proves |
| Layout.TickLabelFits | src/view.rs:61-65 | with a tick spacing of at least 9 and a time below 100 hours, a time label fits its field, and `pad_right` makes the field exactly `tick_spacing` columns wide |
| Layout.TickLabelsAlign | src/view.rs:54-66 | the i-th time label starts above the graph column that is i*tick_spacing samples old, which is a tick column |
| Layout.NowOnNewest | src/view.rs:55-68 | "Now" starts above the rightmost graph column, which is a tick column |
| Layout.TickColumnAge | src/view.rs:278-287 | the graph column `age` places left of the right edge shows the sample taken `age` samples before the newest |
| Layout.MaxLines | src/view.rs:49-71 | at least one body line; on a terminal of three or more rows the top bar, the body and the bottom bar fill it exactly, and a smaller terminal gets one body line |
| Model.NewEntry | src/model.rs:287-294 | a new entry is active and collapsed, with an empty history |
| Model.NewApp | src/model.rs:69-91 | the application starts running on the main screen, with selection 0, scroll 0 at the top, interval index 2 and one new entry per stream |
| Model.NewAppValid | src/model.rs:69-91 | the new application satisfies the invariant |
| Model.IntervalOf | src/model.rs:78-95 | the current interval is a catalogue entry with a positive duration and a tick spacing of at least 10, so every label field of `TickLabelFits` has room |
| Model.Active | src/model.rs:101-103 | the active list is no longer than the entry list; `ActiveMembers` states its contents |
| Model.ActiveMembers | src/model.rs:101-103 | an entry is in the active list exactly when it is an entry and active |
| Model.Height | src/view.rs:425-431 | a stream takes at least one line, and more exactly when it is expanded |
| Model.NthActive | src/model.rs:127-132 | finds the position of the n-th active entry: an active entry with exactly n active entries before it |
| Model.ScrollToStream | src/model.rs:203-243 | a stream above the visible span becomes the top one (scroll to it, top anchor); one below it becomes the bottom one (scroll to it, bottom anchor); one inside it leaves the application unchanged. Only the scroll position and anchor change, they stay usable, and the stream ends up visible |
| Model.Visible | src/model.rs:225-234 | top <= bottom, the anchored stream is at the anchored end, and with the bottom anchor on a stream the span never runs past the last stream |
| Model.VisibleRowsFit | src/model.rs:204-234 | when the anchored stream fits, the visible span is the longest run of whole streams from the anchor that fits the screen body |
| Model.MainAsKey | src/model.rs:161-169 | on the main screen wheel up is handled as Down and wheel down as Up; other buttons do nothing |
| Model.HandleMainKey | src/model.rs:108-160 | a key on the main screen never changes the terminal size or the number of entries, and a key that reports no change changes nothing |
| Model.Handle | src/model.rs:105-196 | an event never changes the terminal size or the number of entries, and an event that reports no change changes nothing |
| Model.SelectUp | src/model.rs:109-116 | Up (or wheel down) moves the selection up by one and scrolls it into view, reporting a change, exactly when the selection is above 0; otherwise it reports nothing and changes nothing |
| Model.SelectDown | src/model.rs:117-124 | Down (or wheel up) moves the selection down by one and scrolls it into view exactly when it is not on the last active stream; otherwise it reports nothing and changes nothing |
| Model.ToggleExpanded | src/model.rs:125-138 | Space flips the expanded flag of the selected active stream only, keeps every history and the selection, scrolls it into view and reports a change |
| Model.StepInterval | src/model.rs:143-154 | `+` and `-` move the interval index by one, reporting a change, exactly when it stays in the catalogue; otherwise nothing changes |
| Model.OtherMainKeys | src/model.rs:139-160 | `q` stops the application and `s` opens the stream screen; any other key or mouse event changes nothing and reports no change |
| Model.StreamScreen | src/model.rs:173-195 | on the stream screen Esc returns to the main screen; every other event changes nothing and reports no change |
| Model.HandleStep | src/model.rs:105-196 | every event keeps the application valid, and while running `handle` reports a change exactly when the application changed |
| Model.HandleKeepsEntries | src/model.rs:105-196 | events never change an entry's stream, activity or history |
| Model.UpdateStreams | src/model.rs:245-263 | sampling keeps the number of entries and every history as a prefix of the new one |
| Model.UpdateAppendsOne | src/model.rs:245-263 | sampling appends exactly one sample to each active history, leaves inactive entries and all other state alone, and keeps the histories within bounds and the application valid |
| Model.ResetEmpties | src/model.rs:265-270 | resetting empties every history and changes nothing else |
| Model.ResetStreams | src/model.rs:265-270 | clears the histories; `ResetEmpties` states the result |
| Model.ResizeKeepsValid | src/model.rs:198-201 | resizing keeps the application valid and leaves entries and scroll position alone |
| Model.Resize | src/model.rs:198-201 | stores the new size; `ResizeKeepsValid` and `ResizeCanHideSelection` state the consequences |
| Model.ResizeCanHideSelection | src/model.rs:198-201 | three collapsed streams on ten rows with the third selected show streams 0 to 2; after resizing to three rows only stream 0 is visible |
| Model.HistoryOnScale | src/model.rs:250-257 | samples that passed the bound assertions lie at or below the stream's declared maximum in every graph window |
| EventLoop.IntervalChangeRestarts | src/main.rs:56-66 | after an interval change every active history is exactly the fresh sample and every inactive one is empty, with the application valid and histories within bounds |
| EventLoop.Reactions | src/main.rs:54-71 | only `+` or `-` on the main screen resamples; the bell leaves the application as it was; only `q` on the main screen quits |
| EventLoop.OnInput | src/main.rs:54-71 | an event that changed nothing rings the bell with the application as it was; `Reactions` and `IntervalChangeRestarts` state the other cases |
| Rate.StepSpec | src/providers/network.rs:80-99 | a rate comes out exactly when this and the last reading are present; it is the growth per elapsed second when the counter grew and 0 otherwise; a reading becomes the last one, a missing one clears it but keeps the time |
| Rate.Step | src/providers/network.rs:80-99 | one call gives a rate exactly when this and the last reading are present, and remembers the reading just taken |
| Rate.Run | src/providers/network.rs:78-99 | one output per reading; `RunFrom` and `RunClosedForm` state the outputs |
| Rate.RunFrom | src/providers/network.rs:78-99 | from any state, every output after the first depends only on the previous and current readings |
| Rate.RunClosedForm | src/providers/network.rs:78-99 | from construction, the i-th output is the rate between readings i-1 and i when both are present, and none otherwise |
| Rate.RatesAllowed | src/providers/network.rs:43-47 | every rate is at least 0, the bandwidth streams' declared minimum, so sampling accepts it |
| Rate.RateExample | src/providers/network.rs:80-99 | readings 100, 150, 140, 200 one second apart give none, 50, 0 and 60 |
| Rate.GapResets | src/providers/network.rs:95-98 | a missing reading gives no rate, and neither does the reading after it |

## Left out

- Terminal I/O: raw mode, the alternate screen, the input thread, the resize signal and the byte-exact output (cursor movement, colours, menus, the stream-screen placeholder). Events and sizes are inputs.
- The concurrency of the main loop: the channel multiplexing and rebuilding the ticker. Only the reaction to an input event is modelled. Resize and ticker events are `Model.Resize` and `Model.UpdateStreams`.
- The theme palette. Styles are arbitrary SGR sequences.
- The providers other than the network rate calculator. These are the system and sensor queries and their naming. Samples are inputs.
- The floating-point core of `format_quantity`: the `log10` magnitude, the `{:.*}` rounding and the check for a carry into "1000". Their results are inputs to `Quantity.FormatQuantity`.
- `f64` display of seconds in `format_duration` is modelled as the exact decimal of the milliseconds with trailing zeros dropped. Only whole milliseconds below a minute reach it.
- NaN is `None`. `f64::min`/`max` folds starting from NaN and the average of no numbers are `Option` values. Finiteness is implicit, because every `real` is finite.
- Stream.FormatWithinWidth: does not cover negative prefixed values that round to -1000 (for example -999600 at precision 0). The carry test of `format_quantity` (src/view.rs:464) looks for a leading "1000", misses "-1000", and the value prints four integer digits, one column over the declared width (`Stream.NegativeCarryOverflows`). No shipped stream is both signed and prefixed.
- Stream.FormatWithinWidth: requires the integer digit count not to be `Some(0)`. Zero still prints one digit "0", which the declared width does not count. No stream uses a count of 0.
- Graph.Symbol: requires a present sample not to exceed a declared maximum. Above it the source indexes past the bar table and panics.
- Model.HandleMainKey: requires what the source needs in order not to panic or wrap around:
  - at least two terminal rows when the viewport reflows. `height - 2` panics with overflow checks and wraps around in a release build;
  - an active stream for Down, which computes the last index `len() - 1`. It panics or wraps around in the same way;
  - a selected active stream for Space, which the source unwraps.
  The wrapped values of a release build are not modelled.
- Model.UpdateStreams: requires every present sample to be within its stream's declared bounds. The source asserts this.
- Rate.Step: requires time to have passed when the counter grew. The source would divide by zero, giving infinity.
- Rate.Step: the rate is exact real division of the growth by the elapsed seconds. The `f64` rounding of the subtraction and the division is not modelled.
- Graph.BarIndex: the level `(number - min) / (max - min)` and the bucket `ceil(level * 8)` are exact reals. The `f64` rounding of the division and the product is not modelled, and it can move a sample that lies on a bucket edge to the neighbouring bar. For example, take min 0.0, the sample 0.375, and max the double nearest 0.6, which is slightly below 0.6. The program rounds the level to 0.625 and draws bar 4. Here the exact level is slightly above 0.625, so the bar is 5. `BarIndexAtMin`, `BarIndexInRange` and `BarIndexMonotonic` also hold in `f64`, because rounding is monotone.
- Graph.BarIndexBuckets: the bucket edges `Edge k` are exact. In `f64` a sample equal to an edge, up to rounding, can land in the neighbouring bucket (see `Graph.BarIndex`).
- Graph.Statistics: lo, hi and avg are exact reals. The `f64` rounding of the sum and the average is not modelled, so `lo <= avg <= hi` is proved for exact arithmetic only.
- Graph.RowsTileRange: the row bounds are exact reals. The `f64` rounding of `row_min = min + row_height * i` and `row_max = row_min + row_height` is not modelled. In `f64` one row's top and the next row's bottom can differ by a rounding error, so the exact tiling is proved for exact arithmetic only.
- The `min` and `max` defaults of the `Stream` trait (src/stream.rs:45-54) are not a separate definition. Every stream in the model gives its bounds as construction arguments, and `None` is the default.
- The clock of the rate calculator (`Instant`). Timestamps are whole milliseconds passed in.
- Rendering a stream's lines beyond the pieces above is left out: the header and value padding, and the min/mid/max axis labels of an expanded graph.
