/** The part of the main loop (src/main.rs) that decides what an input
    event leads to: quitting, a bell for an event that changed nothing, or
    a new frame, after clearing and resampling every history when the
    sampling interval changed. Resize and ticker events are `Resize` and
    `UpdateStreams`. The samples a resample would take are passed in. */
module EventLoop {
  import opened Wrappers
  import opened Model

  datatype Reaction = Quit | Render(app: App, resampled: bool) | Bell(app: App)

  /** Samples offered for one entry list stay acceptable for a list with
      the same streams and activity. */
  lemma SamplesCarryOver(a: seq<Entry>, b: seq<Entry>, samples: seq<Option<real>>)
    requires SamplesAllowed(a, samples) && |b| == |a|
    requires forall i :: 0 <= i < |a| ==> b[i].stream == a[i].stream && b[i].active == a[i].active
    ensures SamplesAllowed(b, samples)
  {
  }

  /** An input event: `handle`, then quit if it stopped the application,
      reset and resample if it changed the interval, render if it changed
      anything, and ring the bell if it changed nothing. */
  function OnInput(app: App, e: Event, samples: seq<Option<real>>): (r: Reaction)
    requires Valid(app) && Defined(app, e)
    requires SamplesAllowed(app.streams, samples)
    ensures r.Bell? ==> r.app == app
  {
    var step := Handle(app, e);
    if !step.changed then Bell(step.app)
    else if !step.app.running then Quit
    else if step.app.intervalIndex != app.intervalIndex then
      HandleKeepsEntries(app, e);
      var cleared := ResetStreams(step.app);
      SamplesCarryOver(app.streams, cleared.streams, samples);
      Render(UpdateStreams(cleared, samples), true)
    else Render(step.app, false)
  }

  /** After an interval change every active stream's history is exactly
      the one fresh sample, and every inactive history is empty; the
      application stays valid and its histories within bounds. */
  lemma IntervalChangeRestarts(app: App, e: Event, samples: seq<Option<real>>)
    requires Valid(app) && Defined(app, e)
    requires SamplesAllowed(app.streams, samples)
    requires OnInput(app, e, samples).Render? && OnInput(app, e, samples).resampled
    ensures var r := OnInput(app, e, samples).app;
            |r.streams| == |app.streams|
            && (forall i :: 0 <= i < |app.streams| && app.streams[i].active ==> r.streams[i].values == [samples[i]])
            && (forall i :: 0 <= i < |app.streams| && !app.streams[i].active ==> r.streams[i].values == [])
            && r.intervalIndex != app.intervalIndex
            && Valid(r) && HistoriesAllowed(r.streams)
  {
    var step := Handle(app, e);
    HandleStep(app, e);
    HandleKeepsEntries(app, e);
    var cleared := ResetStreams(step.app);
    ResetEmpties(step.app);
    SamplesCarryOver(app.streams, cleared.streams, samples);
    UpdateAppendsOne(cleared, samples);
  }

  /** Only a `+` or `-` on the main screen resamples; an event that
      changes nothing rings the bell and leaves the application as it was;
      only `q` on the main screen quits a running application. */
  lemma Reactions(app: App, e: Event, samples: seq<Option<real>>)
    requires Valid(app) && Defined(app, e) && app.running
    requires SamplesAllowed(app.streams, samples)
    ensures OnInput(app, e, samples).Render? && OnInput(app, e, samples).resampled ==>
              app.screen == Main && AsKey(e) in {Char('+'), Char('-')}
    ensures OnInput(app, e, samples).Bell? ==> OnInput(app, e, samples).app == app
    ensures OnInput(app, e, samples).Quit? <==> app.screen == Main && e == KeyEvent(Char('q'))
  {
    HandleStep(app, e);
    if app.screen == Main && (e.KeyEvent? || e.MousePress?) {
      MainAsKey(app, e);
      if e.KeyEvent? || e.button in {WheelUp, WheelDown} {
        match AsKey(e)
        case Up => UpStep(app);
        case Down => DownStep(app);
        case Char(c) => if c == ' ' { SpaceStep(app); }
        case _ =>
      }
    }
  }
}
