/** The historian service (historian.rs) on its mutable state, against `HistorianModel`. */
module Historian {
  import opened Common
  import opened Snapshots
  import opened HistorianModel
  import StorageModel
  import Alerts

  class HistorianService {
    const cfg: Config
    const record: string -> bool
    var samples: seq<Sample>
    var trackedVariables: set<string>
    var samplesTotal: nat
    var lastCapture: Option<nat>
    var trackers: map<string, Alerts.Tracker>
    var alerts: seq<Alerts.Event>
    var alertsTotal: nat
    /** The lines of the history file. */
    var log: seq<Sample>
    ghost var accepted: seq<nat>
    ghost var evaluated: seq<Alerts.Reading>
    ghost var emitted: seq<Alerts.Event>

    ghost function State(): State
      reads this
    {
      HistorianModel.State(samples, trackedVariables, samplesTotal, lastCapture, trackers, alerts, alertsTotal,
                           log, accepted, evaluated, emitted)
    }

    /** Starts over an existing history file, reading it line by line. */
    constructor (cfg: Config, record: string -> bool, history: seq<Sample>)
      ensures this.cfg == cfg && this.record == record
      ensures State() == Load(cfg, history) && Invariant(cfg, State())
    {
      this.cfg, this.record := cfg, record;
      samples, trackedVariables, samplesTotal, lastCapture := [], {}, 0, None;
      trackers, alerts, alertsTotal, log := map[], [], 0, history;
      accepted, evaluated, emitted := [], [], [];
      new;
      samples, trackedVariables, samplesTotal := LoadExistingSamples(history, cfg.maxEntries);
      RunKeeps(cfg, history, []);
    }

    /** Records a snapshot unless the last capture is too recent; the number of samples recorded. */
    method CaptureSnapshotAt(storage: StorageModel.Storage, now: int, timestamp: nat) returns (recorded: nat)
      requires LinksAcyclic(storage)
      requires Invariant(cfg, State())
      modifies this
      ensures State() == CaptureSnapshot(cfg, old(State()), Capture(CollectValues(storage, record), now, timestamp))
      ensures Invariant(cfg, State())
      ensures recorded == |State().log| - |old(State()).log|
    {
      var values := CollectSnapshot(storage, record);
      CaptureKeeps(cfg, State(), Capture(values, now, timestamp));
      recorded := Record(Capture(values, now, timestamp));
    }

    method Record(c: Capture) returns (recorded: nat)
      requires |samples| <= cfg.maxEntries && |alerts| <= ALERT_WINDOW && alertsTotal <= U64_MAX
      modifies this
      ensures State() == CaptureSnapshot(cfg, old(State()), c)
      ensures recorded == |State().log| - |old(State()).log|
    {
      hide Last, Variables, LatestNumeric, Alerts.Evaluate, Saturated;
      if lastCapture.Some? {
        var elapsed := if c.timestamp <= lastCapture.value then 0 else c.timestamp - lastCapture.value;
        if elapsed < Interval(cfg) {
          return 0;
        }
      }
      var batch := SamplesOf(c);
      accepted := accepted + [c.timestamp];
      lastCapture := Some(c.timestamp);
      if batch == [] {
        return 0;
      }
      log := log + batch;
      RecordSamples(batch);
      samplesTotal := Saturated(samplesTotal + |batch|);
      EvaluateBatch(batch, c.timestamp);
      recorded := |batch|;
    }

    method EvaluateBatch(batch: seq<Sample>, timestamp: nat)
      requires |alerts| <= ALERT_WINDOW && alertsTotal <= U64_MAX
      modifies this`trackers, this`alerts, this`alertsTotal, this`evaluated, this`emitted
      ensures var reading := Alerts.Reading(LatestNumeric(cfg, batch), timestamp);
        var (after, events) := Alerts.Evaluate(cfg.rules, reading, old(trackers));
        && trackers == after
        && alerts == Last(old(alerts) + events, ALERT_WINDOW)
        && alertsTotal == Saturated(old(alertsTotal) + |events|)
        && evaluated == old(evaluated) + [reading]
        && emitted == old(emitted) + events
    {
      var reading := Alerts.Reading(LatestNumeric(cfg, batch), timestamp);
      var events;
      trackers, events := Alerts.EvaluateAlerts(cfg.rules, reading, trackers);
      evaluated := evaluated + [reading];
      RecordAlerts(events);
    }

    /** Pushes each sample and trims the window as it goes. */
    method RecordSamples(batch: seq<Sample>)
      requires |samples| <= cfg.maxEntries
      modifies this`samples, this`trackedVariables
      ensures samples == Last(old(samples) + batch, cfg.maxEntries)
      ensures trackedVariables == old(trackedVariables) + Variables(batch)
    {
      ghost var window, tracked := samples, trackedVariables;
      assert window + [] == window;
      var i := 0;
      while i < |batch|
        invariant 0 <= i <= |batch|
        invariant samples == Last(window + batch[..i], cfg.maxEntries)
        invariant trackedVariables == tracked + Variables(batch[..i])
      {
        assert batch[..i + 1] == batch[..i] + [batch[i]];
        assert window + batch[..i + 1] == (window + batch[..i]) + [batch[i]];
        VariablesConcat(batch[..i], [batch[i]]);
        assert Variables([batch[i]]) == {batch[i].variable};
        LastAppend(window + batch[..i], batch[i], cfg.maxEntries);
        samples := Trimmed(samples + [batch[i]], cfg.maxEntries);
        trackedVariables := trackedVariables + {batch[i].variable};
        i := i + 1;
      }
      assert batch[..i] == batch;
    }

    method RecordAlerts(events: seq<Alerts.Event>)
      requires |alerts| <= ALERT_WINDOW && alertsTotal <= U64_MAX
      modifies this`alerts, this`alertsTotal, this`emitted
      ensures alerts == Last(old(alerts) + events, ALERT_WINDOW)
      ensures alertsTotal == Saturated(old(alertsTotal) + |events|)
      ensures emitted == old(emitted) + events
    {
      assert alerts + [] == alerts && emitted + [] == emitted;
      var i := 0;
      while i < |events|
        invariant 0 <= i <= |events|
        invariant alerts == Last(old(alerts) + events[..i], ALERT_WINDOW)
        invariant alertsTotal == Saturated(old(alertsTotal) + i)
        invariant emitted == old(emitted) + events[..i]
      {
        assert old(alerts) + events[..i + 1] == (old(alerts) + events[..i]) + [events[i]];
        LastAppend(old(alerts) + events[..i], events[i], ALERT_WINDOW);
        alerts := Trimmed(alerts + [events[i]], ALERT_WINDOW);
        alertsTotal := Saturated(alertsTotal + 1);
        emitted := emitted + [events[i]];
        i := i + 1;
      }
      assert events[..i] == events;
    }
  }

  /** Replays the lines of a history file. */
  method LoadExistingSamples(history: seq<Sample>, maxEntries: nat)
    returns (samples: seq<Sample>, tracked: set<string>, total: nat)
    ensures samples == Last(history, maxEntries)
    ensures tracked == Variables(history)
    ensures total == Saturated(|history|)
  {
    samples, tracked, total := [], {}, 0;
    var i := 0;
    while i < |history|
      invariant 0 <= i <= |history|
      invariant samples == Last(history[..i], maxEntries)
      invariant tracked == Variables(history[..i])
      invariant total == Saturated(i)
    {
      assert history[..i + 1] == history[..i] + [history[i]];
      VariablesConcat(history[..i], [history[i]]);
      assert Variables([history[i]]) == {history[i].variable};
      tracked := tracked + {history[i].variable};
      LastAppend(history[..i], history[i], maxEntries);
      samples := Trimmed(samples + [history[i]], maxEntries);
      total := Saturated(total + 1);
      i := i + 1;
    }
    assert history[..i] == history;
  }

  /** Drops elements from the front until at most `n` are left. */
  method Trimmed<T>(s: seq<T>, n: nat) returns (r: seq<T>)
    ensures r == Last(s, n)
  {
    r := s;
    while |r| > n
      invariant |r| <= |s| && r == s[|s| - |r|..]
      invariant |r| >= n || r == s
    {
      r := r[1..];
    }
  }
}
