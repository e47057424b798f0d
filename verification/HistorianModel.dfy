/**
 * The historian's bounded window over its append-only log (historian.rs): capturing sample sets,
 * restarting from the log, and querying. `State` also carries the history that the promises are
 * about: accepted capture times, evaluated readings and all emitted events.
 */
module HistorianModel {
  import opened Common
  import opened Snapshots
  import Alerts

  const U64_MAX := 0xFFFF_FFFF_FFFF_FFFF
  const ALERT_WINDOW := 1_000

  datatype Sample = Sample(timestamp: nat, sourceTime: int, variable: string, value: HistorianValue)

  /** `asNumber` is the numeric reading of a recorded value, if it has one. */
  datatype Config = Config(
    sampleInterval: nat, maxEntries: nat, rules: seq<Alerts.Rule>, asNumber: HistorianValue -> Option<real>)

  datatype State = State(
    samples: seq<Sample>,
    tracked: set<string>,
    samplesTotal: nat,
    lastCapture: Option<nat>,
    trackers: map<string, Alerts.Tracker>,
    alerts: seq<Alerts.Event>,
    alertsTotal: nat,
    log: seq<Sample>,
    accepted: seq<nat>,
    evaluated: seq<Alerts.Reading>,
    emitted: seq<Alerts.Event>)

  /** A capture attempt: the flattened samples of a snapshot and the clock reading. */
  datatype Capture = Capture(values: seq<Recorded>, sourceTime: int, timestamp: nat)

  // ----- Bounded windows -----

  /** The last `n` elements. */
  function Last<T>(s: seq<T>, n: nat): (r: seq<T>)
    ensures |r| == if |s| <= n then |s| else n
  {
    if |s| <= n then s else s[|s| - n..]
  }

  /** Appending one element and dropping from the front keeps the last `n`. */
  lemma LastAppend<T>(s: seq<T>, x: T, n: nat)
    ensures Last(Last(s, n) + [x], n) == Last(s + [x], n)
  {
  }

  lemma {:induction false} LastConcat<T>(s: seq<T>, t: seq<T>, n: nat)
    ensures Last(Last(s, n) + t, n) == Last(s + t, n)
    decreases |t|
  {
    if t == [] {
      assert s + t == s && Last(s, n) + t == Last(s, n);
    } else {
      var init, x := t[..|t| - 1], t[|t| - 1];
      LastConcat(s, init, n);
      assert Last(s, n) + t == (Last(s, n) + init) + [x] && s + t == (s + init) + [x];
      LastAppend(Last(s, n) + init, x, n);
      LastAppend(s + init, x, n);
    }
  }

  function Saturated(n: nat): nat
  {
    if n < U64_MAX then n else U64_MAX
  }

  function Variables(samples: seq<Sample>): set<string>
  {
    set i | 0 <= i < |samples| :: samples[i].variable
  }

  // ----- Captures -----

  function Interval(cfg: Config): nat
  {
    if cfg.sampleInterval < 1 then 1 else cfg.sampleInterval
  }

  /** A capture is skipped when less than the interval has passed, or the clock went back. */
  predicate TooSoon(cfg: Config, lastCapture: Option<nat>, timestamp: nat)
  {
    lastCapture.Some? &&
    (if timestamp <= lastCapture.value then 0 else timestamp - lastCapture.value) < Interval(cfg)
  }

  function SamplesOf(c: Capture): (r: seq<Sample>)
    ensures |r| == |c.values|
  {
    seq(|c.values|, i requires 0 <= i < |c.values| => Sample(c.timestamp, c.sourceTime, c.values[i].path, c.values[i].value))
  }

  /** The last numeric value of each variable. */
  function LatestNumeric(cfg: Config, samples: seq<Sample>): map<string, real>
  {
    if samples == [] then map[]
    else
      var latest := LatestNumeric(cfg, samples[..|samples| - 1]);
      var last := samples[|samples| - 1];
      match cfg.asNumber(last.value)
      case Some(number) => latest[last.variable := number]
      case None => latest
  }

  /** The state after a capture attempt whose append succeeds. */
  function CaptureSnapshot(cfg: Config, st: State, c: Capture): State
  {
    if TooSoon(cfg, st.lastCapture, c.timestamp) then st
    else
      var samples := SamplesOf(c);
      var accepted := st.(lastCapture := Some(c.timestamp), accepted := st.accepted + [c.timestamp]);
      if samples == [] then accepted
      else
        var reading := Alerts.Reading(LatestNumeric(cfg, samples), c.timestamp);
        var (trackers, events) := Alerts.Evaluate(cfg.rules, reading, st.trackers);
        accepted.(
          samples := Last(st.samples + samples, cfg.maxEntries),
          tracked := st.tracked + Variables(samples),
          samplesTotal := Saturated(st.samplesTotal + |samples|),
          trackers := trackers,
          alerts := Last(st.alerts + events, ALERT_WINDOW),
          alertsTotal := Saturated(st.alertsTotal + |events|),
          log := st.log + samples,
          evaluated := st.evaluated + [reading],
          emitted := st.emitted + events)
  }

  /** A service started over an existing log. */
  function Load(cfg: Config, log: seq<Sample>): State
  {
    State(Last(log, cfg.maxEntries), Variables(log), Saturated(|log|), None, map[], [], 0, log, [], [], [])
  }

  function Run(cfg: Config, st: State, captures: seq<Capture>): State
  {
    if captures == [] then st
    else CaptureSnapshot(cfg, Run(cfg, st, captures[..|captures| - 1]), captures[|captures| - 1])
  }

  // ----- Promises over every run -----

  /** The window, the tracked variables and the total are those of the whole log. */
  ghost predicate MirrorsLog(cfg: Config, st: State)
  {
    && st.samples == Last(st.log, cfg.maxEntries)
    && st.tracked == Variables(st.log)
    && st.samplesTotal == Saturated(|st.log|)
  }

  /** Successive accepted captures are at least an interval apart. */
  ghost predicate Spaced(cfg: Config, accepted: seq<nat>)
  {
    forall i, j :: 0 <= i < j < |accepted| ==> accepted[i] + Interval(cfg) <= accepted[j]
  }

  ghost predicate AlertsMirrorRun(cfg: Config, st: State)
  {
    && (st.trackers, st.emitted) == Alerts.Run(cfg.rules, st.evaluated)
    && st.alerts == Last(st.emitted, ALERT_WINDOW)
    && st.alertsTotal == Saturated(|st.emitted|)
  }

  ghost predicate Invariant(cfg: Config, st: State)
  {
    && MirrorsLog(cfg, st)
    && Spaced(cfg, st.accepted)
    && st.lastCapture == (if st.accepted == [] then None else Some(st.accepted[|st.accepted| - 1]))
    && AlertsMirrorRun(cfg, st)
  }

  lemma VariablesConcat(a: seq<Sample>, b: seq<Sample>)
    ensures Variables(a + b) == Variables(a) + Variables(b)
  {
    forall v ensures v in Variables(a + b) <==> v in Variables(a) + Variables(b) {
      if v in Variables(a) {
        var i :| 0 <= i < |a| && a[i].variable == v;
        assert (a + b)[i].variable == v;
      }
      if v in Variables(b) {
        var i :| 0 <= i < |b| && b[i].variable == v;
        assert (a + b)[|a| + i].variable == v;
      }
    }
  }

  lemma CaptureKeeps(cfg: Config, st: State, c: Capture)
    requires Invariant(cfg, st)
    ensures Invariant(cfg, CaptureSnapshot(cfg, st, c))
  {
    var samples := SamplesOf(c);
    if !TooSoon(cfg, st.lastCapture, c.timestamp) && samples != [] {
      var reading := Alerts.Reading(LatestNumeric(cfg, samples), c.timestamp);
      var events := Alerts.Evaluate(cfg.rules, reading, st.trackers).1;
      LastConcat(st.log, samples, cfg.maxEntries);
      VariablesConcat(st.log, samples);
      LastConcat(st.emitted, events, ALERT_WINDOW);
      assert (st.evaluated + [reading])[..|st.evaluated|] == st.evaluated;
    }
  }

  /** Every run from a (re)started service keeps the invariant. */
  lemma {:induction false} RunKeeps(cfg: Config, log: seq<Sample>, captures: seq<Capture>)
    ensures Invariant(cfg, Run(cfg, Load(cfg, log), captures))
  {
    if captures != [] {
      RunKeeps(cfg, log, captures[..|captures| - 1]);
      CaptureKeeps(cfg, Run(cfg, Load(cfg, log), captures[..|captures| - 1]), captures[|captures| - 1]);
    }
  }

  /** A restart from the log rebuilds the window, the tracked variables and the sample total. */
  lemma RestartRebuilds(cfg: Config, log: seq<Sample>, captures: seq<Capture>)
    ensures var st := Run(cfg, Load(cfg, log), captures);
      var restarted := Load(cfg, st.log);
      && restarted.samples == st.samples && restarted.tracked == st.tracked && restarted.samplesTotal == st.samplesTotal
      && log <= st.log
  {
    RunKeeps(cfg, log, captures);
    RunExtendsLog(cfg, log, captures);
  }

  lemma {:induction false} RunExtendsLog(cfg: Config, log: seq<Sample>, captures: seq<Capture>)
    ensures log <= Run(cfg, Load(cfg, log), captures).log
  {
    if captures != [] {
      RunExtendsLog(cfg, log, captures[..|captures| - 1]);
    }
  }

  /** Accepted capture times never come closer than the interval, whatever the clock does. */
  lemma AcceptedSpaced(cfg: Config, log: seq<Sample>, captures: seq<Capture>)
    ensures Spaced(cfg, Run(cfg, Load(cfg, log), captures).accepted)
  {
    RunKeeps(cfg, log, captures);
  }

  /** Over the captures of a run, a rule's tracker and events follow its streak of breaches. */
  lemma AlertsFollowStreaks(cfg: Config, log: seq<Sample>, captures: seq<Capture>, rule: Alerts.Rule)
    requires Alerts.DistinctRules(cfg.rules) && rule in cfg.rules && 1 <= rule.debounce <= Alerts.U32_MAX
    ensures var st := Run(cfg, Load(cfg, log), captures);
      Alerts.Tracks(rule, Alerts.Streak(rule, st.evaluated),
                    Alerts.TrackerOf(st.trackers, rule.name), Alerts.EventsOf(st.emitted, rule.name))
  {
    RunKeeps(cfg, log, captures);
    Alerts.ActiveIffStreak(cfg.rules, Run(cfg, Load(cfg, log), captures).evaluated, rule);
  }

  /** The log is in the order of its timestamps, which are times of accepted captures. */
  ghost predicate InOrder(st: State)
  {
    && (forall i, j :: 0 <= i < j < |st.log| ==> st.log[i].timestamp <= st.log[j].timestamp)
    && (forall i :: 0 <= i < |st.log| ==> st.log[i].timestamp in st.accepted)
  }

  /** In a service started without history, the log is in the order of the capture times. */
  lemma {:induction false} LogInOrder(cfg: Config, captures: seq<Capture>)
    ensures InOrder(Run(cfg, Load(cfg, []), captures))
  {
    if captures != [] {
      var init := captures[..|captures| - 1];
      LogInOrder(cfg, init);
      RunKeeps(cfg, [], init);
      CaptureInOrder(cfg, Run(cfg, Load(cfg, []), init), captures[|captures| - 1]);
    }
  }

  lemma CaptureInOrder(cfg: Config, before: State, c: Capture)
    requires Invariant(cfg, before) && InOrder(before)
    ensures InOrder(CaptureSnapshot(cfg, before, c))
  {
    hide MirrorsLog, AlertsMirrorRun, Last, Variables, LatestNumeric;
    var after := CaptureSnapshot(cfg, before, c);
    if !TooSoon(cfg, before.lastCapture, c.timestamp) {
      forall t | t in before.accepted ensures t <= c.timestamp {
        var k :| 0 <= k < |before.accepted| && before.accepted[k] == t;
        assert k == |before.accepted| - 1 || t <= before.accepted[|before.accepted| - 1];
      }
      assert after.accepted == before.accepted + [c.timestamp];
      assert after.log == before.log + SamplesOf(c);
      assert forall i :: 0 <= i < |SamplesOf(c)| ==> SamplesOf(c)[i].timestamp == c.timestamp;
      forall i | 0 <= i < |after.log| ensures after.log[i].timestamp in after.accepted {
        if i < |before.log| {
          assert before.log[i].timestamp in before.accepted;
        }
      }
    }
  }

  // ----- What a capture records -----

  /** Sample `x` is what a capture makes of one recorded value. */
  predicate SampleOf(x: Sample, c: Capture, v: Recorded)
  {
    x.timestamp == c.timestamp && x.sourceTime == c.sourceTime && x.variable == v.path && x.value == v.value
  }

  /**
   * A capture that is the first, or comes at least the interval after the last one, is accepted:
   * the log grows by one sample for each recorded value, in order.
   */
  lemma CaptureRecords(cfg: Config, st: State, c: Capture)
    requires st.lastCapture.Some? ==> c.timestamp >= st.lastCapture.value + cfg.sampleInterval
    requires st.lastCapture.Some? ==> c.timestamp >= st.lastCapture.value + 1
    ensures var after := CaptureSnapshot(cfg, st, c);
      && after.lastCapture == Some(c.timestamp) && after.accepted == st.accepted + [c.timestamp]
      && |after.log| == |st.log| + |c.values| && after.log[..|st.log|] == st.log
      && forall i :: 0 <= i < |c.values| ==> SampleOf(after.log[|st.log| + i], c, c.values[i])
    ensures var after := CaptureSnapshot(cfg, st, c);
      if c.values == [] then after.evaluated == st.evaluated && after.emitted == st.emitted
      else
        && |after.evaluated| == |st.evaluated| + 1 && after.evaluated[..|st.evaluated|] == st.evaluated
        && after.evaluated[|st.evaluated|].timestamp == c.timestamp
        && HoldsLatest(cfg, c.values, after.evaluated[|st.evaluated|].latest)
  {
    var after := CaptureSnapshot(cfg, st, c);
    var samples := SamplesOf(c);
    LatestHeld(cfg, c, |c.values|);
    assert samples[..|c.values|] == samples && c.values[..|c.values|] == c.values;
    assert after.log == st.log + samples;
  }

  /** Any other capture, the clock having gone back included, changes nothing. */
  lemma CaptureSkipped(cfg: Config, st: State, c: Capture)
    requires st.lastCapture.Some?
    requires c.timestamp < st.lastCapture.value + cfg.sampleInterval || c.timestamp <= st.lastCapture.value
    ensures CaptureSnapshot(cfg, st, c) == st
  {
  }

  /** The variable's last numeric value stands at position `i`. */
  predicate LastNumberAt(cfg: Config, values: seq<Recorded>, i: nat, variable: string)
  {
    && i < |values| && values[i].path == variable && cfg.asNumber(values[i].value).Some?
    && forall j :: i < j < |values| && values[j].path == variable ==> cfg.asNumber(values[j].value).None?
  }

  /** `latest` has the last number recorded for each variable, and no other. */
  ghost predicate HoldsLatest(cfg: Config, values: seq<Recorded>, latest: map<string, real>)
  {
    && (forall v :: v in latest ==> exists i :: LastNumberAt(cfg, values, i, v))
    && (forall i :: 0 <= i < |values| && LastNumberAt(cfg, values, i, values[i].path) ==>
          values[i].path in latest && Some(latest[values[i].path]) == cfg.asNumber(values[i].value))
  }

  /** Where the last number of a variable stands once another value is recorded. */
  lemma LastNumberOneMore(cfg: Config, init: seq<Recorded>, x: Recorded, i: nat, variable: string)
    ensures i < |init| && !(x.path == variable && cfg.asNumber(x.value).Some?) ==>
      (LastNumberAt(cfg, init + [x], i, variable) <==> LastNumberAt(cfg, init, i, variable))
    ensures i < |init| && x.path == variable && cfg.asNumber(x.value).Some? ==> !LastNumberAt(cfg, init + [x], i, variable)
    ensures LastNumberAt(cfg, init + [x], |init|, variable) <==> x.path == variable && cfg.asNumber(x.value).Some?
  {
    var all := init + [x];
    assert all[|init|] == x && forall j :: 0 <= j < |init| ==> all[j] == init[j];
  }

  lemma LatestOneMore(cfg: Config, init: seq<Recorded>, x: Recorded, before: map<string, real>)
    requires HoldsLatest(cfg, init, before)
    ensures HoldsLatest(cfg, init + [x],
      match cfg.asNumber(x.value) case Some(number) => before[x.path := number] case None => before)
  {
    hide LastNumberAt;
    var all := init + [x];
    var latest := match cfg.asNumber(x.value) case Some(number) => before[x.path := number] case None => before;
    forall v | v in latest ensures exists i :: LastNumberAt(cfg, all, i, v) {
      if v == x.path && cfg.asNumber(x.value).Some? {
        LastNumberOneMore(cfg, init, x, |init|, v);
      } else {
        var i :| LastNumberAt(cfg, init, i, v);
        LastNumberWithin(cfg, init, i, v);
        LastNumberOneMore(cfg, init, x, i, v);
      }
    }
    forall i | 0 <= i < |all| && LastNumberAt(cfg, all, i, all[i].path)
      ensures all[i].path in latest && Some(latest[all[i].path]) == cfg.asNumber(all[i].value)
    {
      LastNumberOneMore(cfg, init, x, i, all[i].path);
    }
  }

  lemma LastNumberWithin(cfg: Config, values: seq<Recorded>, i: nat, variable: string)
    requires LastNumberAt(cfg, values, i, variable)
    ensures i < |values|
  {
  }

  lemma {:induction false} LatestHeld(cfg: Config, c: Capture, n: nat)
    requires n <= |c.values|
    ensures HoldsLatest(cfg, c.values[..n], LatestNumeric(cfg, SamplesOf(c)[..n]))
  {
    if n > 0 {
      LatestHeld(cfg, c, n - 1);
      LatestOneMore(cfg, c.values[..n - 1], c.values[n - 1], LatestNumeric(cfg, SamplesOf(c)[..n - 1]));
      hide HoldsLatest;
      assert SamplesOf(c)[..n][..n - 1] == SamplesOf(c)[..n - 1];
      assert c.values[..n] == c.values[..n - 1] + [c.values[n - 1]];
    }
  }

  /**
   * After every run the window is the end of the log, the tracked variables are those of the log,
   * and the totals count it and the emitted events, up to the largest 64-bit number.
   */
  lemma WindowExact(cfg: Config, log: seq<Sample>, captures: seq<Capture>)
    ensures var st := Run(cfg, Load(cfg, log), captures);
      && st.samples == st.log[if |st.log| <= cfg.maxEntries then 0 else |st.log| - cfg.maxEntries..]
      && (forall v :: v in st.tracked <==> exists i :: 0 <= i < |st.log| && st.log[i].variable == v)
      && st.alerts == st.emitted[if |st.emitted| <= 1_000 then 0 else |st.emitted| - 1_000..]
      && st.samplesTotal == (if |st.log| <= 0xFFFF_FFFF_FFFF_FFFF then |st.log| else 0xFFFF_FFFF_FFFF_FFFF)
      && st.alertsTotal == (if |st.emitted| <= 0xFFFF_FFFF_FFFF_FFFF then |st.emitted| else 0xFFFF_FFFF_FFFF_FFFF)
  {
    RunKeeps(cfg, log, captures);
  }

  // ----- Queries -----

  predicate Matches(x: Sample, variable: Option<string>, since: Option<nat>)
  {
    (variable.Some? ==> x.variable == variable.value) && (since.Some? ==> x.timestamp >= since.value)
  }

  function Matching(samples: seq<Sample>, variable: Option<string>, since: Option<nat>): (r: seq<Sample>)
    ensures |r| <= |samples|
  {
    if samples == [] then []
    else
      var init := Matching(samples[..|samples| - 1], variable, since);
      var last := samples[|samples| - 1];
      if Matches(last, variable, since) then init + [last] else init
  }

  /** A sample of the variable, if one is asked for, recorded at the time or later. */
  predicate Wanted(x: Sample, variable: Option<string>, since: Option<nat>)
  {
    (variable == None || variable == Some(x.variable)) && (since == None || since.value <= x.timestamp)
  }

  /** Positions `at` pick, in order, exactly the wanted samples. */
  ghost predicate Picks(samples: seq<Sample>, variable: Option<string>, since: Option<nat>, at: seq<nat>)
  {
    && (forall i, j :: 0 <= i < j < |at| ==> at[i] < at[j])
    && (forall i :: 0 <= i < |at| ==> at[i] < |samples| && Wanted(samples[at[i]], variable, since))
    && (forall k :: 0 <= k < |samples| && Wanted(samples[k], variable, since) ==> k in at)
  }

  ghost predicate PickedAt(samples: seq<Sample>, at: seq<nat>, picked: seq<Sample>)
  {
    |picked| == |at| && forall i :: 0 <= i < |at| ==> at[i] < |samples| && picked[i] == samples[at[i]]
  }

  lemma PickOneMore(init: seq<Sample>, x: Sample, variable: Option<string>, since: Option<nat>, at: seq<nat>, picked: seq<Sample>)
    requires Picks(init, variable, since, at) && PickedAt(init, at, picked)
    ensures Wanted(x, variable, since) ==>
      Picks(init + [x], variable, since, at + [|init|]) && PickedAt(init + [x], at + [|init|], picked + [x])
    ensures !Wanted(x, variable, since) ==> Picks(init + [x], variable, since, at) && PickedAt(init + [x], at, picked)
  {
    var more := at + [|init|];
    assert more[|at|] == |init|;
    assert forall k :: k in at ==> k in more;
  }

  /** The matching samples are those, in recorded order. */
  lemma {:induction false} MatchingPicks(samples: seq<Sample>, variable: Option<string>, since: Option<nat>) returns (at: seq<nat>)
    ensures Picks(samples, variable, since, at) && PickedAt(samples, at, Matching(samples, variable, since))
  {
    if samples == [] {
      at := [];
    } else {
      var n := |samples| - 1;
      at := MatchingPicks(samples[..n], variable, since);
      PickOneMore(samples[..n], samples[n], variable, since, at, Matching(samples[..n], variable, since));
      assert samples == samples[..n] + [samples[n]];
      hide Picks, PickedAt;
      if Matches(samples[n], variable, since) {
        at := at + [n];
      }
    }
  }

  /** A query gives the last of them: all when there are fewer than the limit, which counts as 1 to 5000. */
  lemma QueryPicks(samples: seq<Sample>, variable: Option<string>, since: Option<nat>, limit: nat, items: seq<Sample>) returns (at: seq<nat>)
    requires items == Last(Matching(samples, variable, since), Clamped(limit))
    ensures Picks(samples, variable, since, at)
    ensures var most := if limit == 0 then 1 else if limit <= 5_000 then limit else 5_000;
      |items| == if |at| <= most then |at| else most
    ensures PickedAt(samples, at[|at| - |items|..], items)
  {
    at := MatchingPicks(samples, variable, since);
    hide Picks, Matching;
  }

  /** The limit of a query, kept between 1 and 5000. */
  function Clamped(limit: nat): nat
  {
    if limit < 1 then 1 else if limit > 5_000 then 5_000 else limit
  }

  /** The last of the matching samples, in recorded order. */
  method Query(samples: seq<Sample>, variable: Option<string>, since: Option<nat>, limit: nat) returns (items: seq<Sample>)
    ensures items == Last(Matching(samples, variable, since), Clamped(limit))
  {
    items := LastMatching(samples, variable, since, Clamped(limit));
  }

  /** Collects matching samples from the back until there are enough. */
  method LastMatching(samples: seq<Sample>, variable: Option<string>, since: Option<nat>, n: nat) returns (items: seq<Sample>)
    ensures items == Last(Matching(samples, variable, since), n)
  {
    hide Matching, Last;
    items := [];
    var i := |samples|;
    assert samples[..i] == samples;
    assert Matching(samples, variable, since) + [] == Matching(samples, variable, since);
    while i > 0 && |items| < n
      invariant 0 <= i <= |samples| && |items| <= n
      invariant Matching(samples, variable, since) == Matching(samples[..i], variable, since) + items
    {
      var x := samples[i - 1];
      MatchingStep(samples, i, variable, since);
      if Matches(x, variable, since) {
        items := [x] + items;
      }
      i := i - 1;
    }
    if i == 0 {
      MatchingNone(samples, variable, since);
      assert [] + items == items;
      LastAll(items, n);
    } else {
      LastSuffix(Matching(samples[..i], variable, since), items);
    }
  }

  lemma MatchingStep(samples: seq<Sample>, i: nat, variable: Option<string>, since: Option<nat>)
    requires 0 < i <= |samples|
    ensures Matching(samples[..i], variable, since) ==
      Matching(samples[..i - 1], variable, since) + if Matches(samples[i - 1], variable, since) then [samples[i - 1]] else []
  {
    assert samples[..i][..i - 1] == samples[..i - 1];
  }

  lemma MatchingNone(samples: seq<Sample>, variable: Option<string>, since: Option<nat>)
    ensures Matching(samples[..0], variable, since) == []
  {
  }

  lemma LastAll<T>(items: seq<T>, n: nat)
    requires |items| <= n
    ensures Last(items, n) == items
  {
  }

  lemma LastSuffix<T>(before: seq<T>, items: seq<T>)
    ensures Last(before + items, |items|) == items
  {
  }
}
