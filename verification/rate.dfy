/** `rate_calculator` (src/providers/network.rs): turns a cumulative
    counter into a rate per second. It remembers the last counter reading
    and when it was taken; a decrease counts as no traffic, and a missing
    reading forgets the last one. The clock is a parameter: timestamps are
    whole milliseconds, as `as_millis` gives them. */
module Rate {
  import opened Wrappers
  import Stream
  import Model

  datatype RateState = RateState(lastInput: Option<real>, lastTime: int)

  /** The calculator as built: no reading yet, the clock started now. */
  function Start(now: int): RateState {
    RateState(None, now)
  }

  /** The rate between two readings `elapsed` milliseconds apart, or 0
      when the counter did not grow. */
  function RateOf(last: real, input: real, elapsed: int): real
    requires input > last ==> elapsed > 0
  {
    if input > last then (input - last) / ((elapsed as real) / 1000.0) else 0.0
  }

  datatype Output = Output(state: RateState, value: Option<real>)

  /** A reading that grew since the last one is divided by the time
      elapsed, which must not be zero. */
  predicate StepDefined(st: RateState, input: Option<real>, now: int) {
    input.Some? && st.lastInput.Some? && input.value > st.lastInput.value ==> now > st.lastTime
  }

  /** One call of the closure: a rate only between two present readings,
      and the reading just taken is the one remembered. */
  function Step(st: RateState, input: Option<real>, now: int): (o: Output)
    requires StepDefined(st, input, now)
    ensures o.value.Some? <==> input.Some? && st.lastInput.Some?
    ensures o.state.lastInput == input
  {
    match input
    case Some(x) =>
      var v := match st.lastInput
        case None => None
        case Some(l) => Some(RateOf(l, x, now - st.lastTime));
      Output(RateState(Some(x), now), v)
    case None => Output(st.(lastInput := None), None)
  }

  /** A rate comes out exactly when this reading and the last one are both
      present; it is never negative, it is the growth per second when the
      counter grew and 0 otherwise. A present reading becomes the last one
      at the current time; a missing one forgets the last reading but keeps
      its time. */
  lemma StepSpec(st: RateState, input: Option<real>, now: int)
    requires StepDefined(st, input, now)
    ensures var o := Step(st, input, now);
            (o.value.Some? <==> input.Some? && st.lastInput.Some?)
            && (o.value.Some? ==> o.value.value >= 0.0)
            && (o.value.Some? && input.value > st.lastInput.value ==>
                  o.value.value * ((now - st.lastTime) as real) == (input.value - st.lastInput.value) * 1000.0)
            && (o.value.Some? && input.value <= st.lastInput.value ==> o.value.value == 0.0)
            && (input.Some? ==> o.state == RateState(input, now))
            && (input.None? ==> o.state == RateState(None, st.lastTime))
  {
    if input.Some? && st.lastInput.Some? && input.value > st.lastInput.value {
      var d := input.value - st.lastInput.value;
      var e := (now - st.lastTime) as real;
      assert d / (e / 1000.0) * e == d * 1000.0;
      assert d / (e / 1000.0) >= 0.0;
    }
  }

  /** Timestamps after `t`, strictly increasing: the clock only moves
      forward, and two readings are never taken in the same millisecond. */
  predicate Increasing(t: int, times: seq<int>) {
    (forall k :: 0 <= k < |times| ==> t < times[k])
    && (forall j, k :: 0 <= j < k < |times| ==> times[j] < times[k])
  }

  /** The closure's outputs for a sequence of readings taken at the given
      times. */
  function Run(st: RateState, inputs: seq<Option<real>>, times: seq<int>): (outs: seq<Option<real>>)
    requires |times| == |inputs| && Increasing(st.lastTime, times)
    ensures |outs| == |inputs|
    decreases |inputs|
  {
    if |inputs| == 0 then []
    else
      var o := Step(st, inputs[0], times[0]);
      [o.value] + Run(o.state, inputs[1..], times[1..])
  }

  /** The `i`-th output without running the calculator: the rate between
      the previous and the current reading when both are present. */
  function Expected(inputs: seq<Option<real>>, times: seq<int>, i: nat): Option<real>
    requires |times| == |inputs| && i < |inputs|
    requires i > 0 ==> times[i - 1] < times[i]
  {
    if i > 0 && inputs[i - 1].Some? && inputs[i].Some? then
      Some(RateOf(inputs[i - 1].value, inputs[i].value, times[i] - times[i - 1]))
    else None
  }

  /** Run from the start, the calculator's outputs are exactly the
      expected ones. */
  lemma RunClosedForm(t0: int, inputs: seq<Option<real>>, times: seq<int>, i: nat)
    requires |times| == |inputs| && Increasing(t0, times) && i < |inputs|
    ensures Run(Start(t0), inputs, times)[i] == Expected(inputs, times, i)
  {
    RunFrom(Start(t0), inputs, times, i);
  }

  /** From any state, the first output depends on the state and every
      later one is the expected one. */
  lemma {:induction false} RunFrom(st: RateState, inputs: seq<Option<real>>, times: seq<int>, i: nat)
    requires |times| == |inputs| && Increasing(st.lastTime, times) && i < |inputs|
    ensures i == 0 ==> Run(st, inputs, times)[0] == Step(st, inputs[0], times[0]).value
    ensures i > 0 ==> Run(st, inputs, times)[i] == Expected(inputs, times, i)
    decreases i
  {
    if i > 0 {
      var o := Step(st, inputs[0], times[0]);
      var rest := Run(o.state, inputs[1..], times[1..]);
      assert Run(st, inputs, times)[i] == rest[i - 1];
      RunFrom(o.state, inputs[1..], times[1..], i - 1);
      if i == 1 {
        StepSpec(st, inputs[0], times[0]);
      }
    }
  }

  /** Every rate a calculator started from scratch reports is at least 0,
      the minimum the bandwidth streams declare, so `update_streams` accepts
      it; and it reports one exactly when the reading and the one before it
      are both present. */
  lemma RatesAllowed(t0: int, inputs: seq<Option<real>>, times: seq<int>, i: nat,
                     name: string, description: string)
    requires |times| == |inputs| && Increasing(t0, times) && i < |inputs|
    ensures Run(Start(t0), inputs, times)[i].Some? <==> i > 0 && inputs[i - 1].Some? && inputs[i].Some?
    ensures Model.Allowed(Stream.BandwidthStream(name, description), Run(Start(t0), inputs, times)[i])
  {
    RunClosedForm(t0, inputs, times, i);
    if i > 0 && inputs[i - 1].Some? && inputs[i].Some? {
      var l := inputs[i - 1].value;
      var x := inputs[i].value;
      if x > l {
        assert (x - l) / (((times[i] - times[i - 1]) as real) / 1000.0) >= 0.0;
      }
    }
  }

  /** Counter readings 100, 150, 140 and 200 one second apart give no
      rate, then 50, then 0 (the counter went back), then 60. */
  lemma RateExample()
    ensures Run(Start(0), [Some(100.0), Some(150.0), Some(140.0), Some(200.0)], [1000, 2000, 3000, 4000])
            == [None, Some(50.0), Some(0.0), Some(60.0)]
  {
    var inputs := [Some(100.0), Some(150.0), Some(140.0), Some(200.0)];
    var times := [1000, 2000, 3000, 4000];
    var outs := Run(Start(0), inputs, times);
    RunClosedForm(0, inputs, times, 0);
    RunClosedForm(0, inputs, times, 1);
    RunClosedForm(0, inputs, times, 2);
    RunClosedForm(0, inputs, times, 3);
  }

  /** A missing reading breaks the chain: the reading after it gives no
      rate either, whatever the counter says. */
  lemma GapResets(t0: int, inputs: seq<Option<real>>, times: seq<int>, i: nat)
    requires |times| == |inputs| && Increasing(t0, times) && i + 1 < |inputs|
    requires inputs[i].None?
    ensures Run(Start(t0), inputs, times)[i] == None
    ensures Run(Start(t0), inputs, times)[i + 1] == None
  {
    RunClosedForm(t0, inputs, times, i);
    RunClosedForm(t0, inputs, times, i + 1);
  }
}
