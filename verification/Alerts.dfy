/**
 * Debounced alert rules (historian.rs, `evaluate_alerts`): each rule counts consecutive breaches,
 * becomes active when the count reaches its debounce, and clears on the first sample set without
 * a breach.
 */
module Alerts {
  import opened Common

  const U32_MAX := 0xFFFF_FFFF

  /** Thresholds and sample values are abstract ordered numbers. */
  datatype Rule = Rule(name: string, variable: string, above: Option<real>, below: Option<real>, debounce: nat)

  datatype AlertState = Triggered | Cleared

  datatype Event = Event(timestamp: nat, rule: string, variable: string, state: AlertState, value: Option<real>)

  datatype Tracker = Tracker(active: bool, consecutive: nat)

  /** The numeric values of one evaluated sample set, and when it was taken. */
  datatype Reading = Reading(latest: map<string, real>, timestamp: nat)

  const FRESH := Tracker(false, 0)

  function ThresholdBreached(value: real, above: Option<real>, below: Option<real>): bool
  {
    (above.Some? && value > above.value) || (below.Some? && value < below.value)
  }

  function ValueOf(rule: Rule, latest: map<string, real>): Option<real>
  {
    if rule.variable in latest then Some(latest[rule.variable]) else None
  }

  predicate Breached(rule: Rule, latest: map<string, real>)
  {
    rule.variable in latest && ThresholdBreached(latest[rule.variable], rule.above, rule.below)
  }

  function TrackerOf(trackers: map<string, Tracker>, name: string): Tracker
  {
    if name in trackers then trackers[name] else FRESH
  }

  /** One rule against one reading: its tracker afterwards and the event it emits, if any. */
  function Step(rule: Rule, reading: Reading, tracker: Tracker): (Tracker, seq<Event>)
  {
    var value := ValueOf(rule, reading.latest);
    if Breached(rule, reading.latest) then
      var consecutive := if tracker.consecutive < U32_MAX then tracker.consecutive + 1 else U32_MAX;
      if !tracker.active && consecutive >= rule.debounce
      then (Tracker(true, consecutive), [Event(reading.timestamp, rule.name, rule.variable, Triggered, value)])
      else (Tracker(tracker.active, consecutive), [])
    else
      if tracker.active
      then (Tracker(false, 0), [Event(reading.timestamp, rule.name, rule.variable, Cleared, value)])
      else (Tracker(false, 0), [])
  }

  /** All rules in order. */
  function Evaluate(rules: seq<Rule>, reading: Reading, trackers: map<string, Tracker>): (map<string, Tracker>, seq<Event>)
  {
    if rules == [] then (trackers, [])
    else
      var (before, events) := Evaluate(rules[..|rules| - 1], reading, trackers);
      var rule := rules[|rules| - 1];
      var (tracker, own) := Step(rule, reading, TrackerOf(before, rule.name));
      (before[rule.name := tracker], events + own)
  }

  /** The trackers and all events after a run of readings. */
  function Run(rules: seq<Rule>, history: seq<Reading>): (map<string, Tracker>, seq<Event>)
  {
    if history == [] then (map[], [])
    else
      var (trackers, events) := Run(rules, history[..|history| - 1]);
      var (after, own) := Evaluate(rules, history[|history| - 1], trackers);
      (after, events + own)
  }

  method EvaluateAlerts(rules: seq<Rule>, reading: Reading, trackers: map<string, Tracker>)
    returns (after: map<string, Tracker>, events: seq<Event>)
    ensures (after, events) == Evaluate(rules, reading, trackers)
  {
    after, events := trackers, [];
    var i := 0;
    while i < |rules|
      invariant 0 <= i <= |rules|
      invariant (after, events) == Evaluate(rules[..i], reading, trackers)
    {
      var rule := rules[i];
      var value := ValueOf(rule, reading.latest);
      var breached := value.Some? && ThresholdBreached(value.value, rule.above, rule.below);
      ghost var before := TrackerOf(after, rule.name);
      var tracker := TrackerOf(after, rule.name);
      var own := [];
      if breached {
        tracker := tracker.(consecutive := if tracker.consecutive < U32_MAX then tracker.consecutive + 1 else U32_MAX);
        if !tracker.active && tracker.consecutive >= rule.debounce {
          tracker := tracker.(active := true);
          own := [Event(reading.timestamp, rule.name, rule.variable, Triggered, value)];
        }
      } else {
        if tracker.active {
          own := [Event(reading.timestamp, rule.name, rule.variable, Cleared, value)];
        }
        tracker := Tracker(false, 0);
      }
      assert (tracker, own) == Step(rule, reading, before);
      assert rules[..i + 1][..i] == rules[..i] && rules[..i + 1][i] == rule;
      after := after[rule.name := tracker];
      events := events + own;
      i := i + 1;
    }
    assert rules[..i] == rules;
  }

  // ----- One rule among others -----

  predicate DistinctRules(rules: seq<Rule>)
  {
    forall i, j :: 0 <= i < j < |rules| ==> rules[i].name != rules[j].name
  }

  function EventsOf(events: seq<Event>, name: string): seq<Event>
  {
    if events == [] then []
    else
      var init := EventsOf(events[..|events| - 1], name);
      var last := events[|events| - 1];
      if last.rule == name then init + [last] else init
  }

  lemma {:induction false} EventsOfConcat(a: seq<Event>, b: seq<Event>, name: string)
    ensures EventsOf(a + b, name) == EventsOf(a, name) + EventsOf(b, name)
  {
    if b == [] {
      assert a + b == a;
    } else {
      assert (a + b)[..|a + b| - 1] == a + b[..|b| - 1];
      EventsOfConcat(a, b[..|b| - 1], name);
    }
  }

  lemma StepEvents(rule: Rule, reading: Reading, tracker: Tracker, name: string)
    ensures EventsOf(Step(rule, reading, tracker).1, name) == if name == rule.name then Step(rule, reading, tracker).1 else []
  {
    var own := Step(rule, reading, tracker).1;
    if own != [] {
      assert own == [] + [own[0]];
      assert EventsOf([], name) == [];
      assert own[..0] == [];
    }
  }

  /** Rules with other names neither move a rule's tracker nor add to its events. */
  lemma {:induction false} OthersDoNotInterfere(rules: seq<Rule>, reading: Reading, trackers: map<string, Tracker>, name: string)
    requires forall i :: 0 <= i < |rules| ==> rules[i].name != name
    ensures TrackerOf(Evaluate(rules, reading, trackers).0, name) == TrackerOf(trackers, name)
    ensures EventsOf(Evaluate(rules, reading, trackers).1, name) == []
  {
    if rules != [] {
      var init, rule := rules[..|rules| - 1], rules[|rules| - 1];
      OthersDoNotInterfere(init, reading, trackers, name);
      var (before, events) := Evaluate(init, reading, trackers);
      StepEvents(rule, reading, TrackerOf(before, rule.name), name);
      EventsOfConcat(events, Step(rule, reading, TrackerOf(before, rule.name)).1, name);
    }
  }

  /** With distinct names, a rule evolves as if it were alone. */
  lemma {:induction false} RuleAlone(rules: seq<Rule>, reading: Reading, trackers: map<string, Tracker>, rule: Rule)
    requires DistinctRules(rules) && rule in rules
    ensures var (after, events) := Evaluate(rules, reading, trackers);
      (TrackerOf(after, rule.name), EventsOf(events, rule.name)) == Step(rule, reading, TrackerOf(trackers, rule.name))
  {
    hide Step, EventsOf;
    var init, last := rules[..|rules| - 1], rules[|rules| - 1];
    var (before, events) := Evaluate(init, reading, trackers);
    var own := Step(last, reading, TrackerOf(before, last.name)).1;
    EventsOfConcat(events, own, rule.name);
    StepEvents(last, reading, TrackerOf(before, last.name), rule.name);
    if rule == last {
      OthersDoNotInterfere(init, reading, trackers, rule.name);
      assert [] + own == own;
    } else {
      var k :| 0 <= k < |rules| && rules[k] == rule;
      assert init[k] == rule && last.name != rule.name;
      RuleAlone(init, reading, trackers, rule);
      assert EventsOf(events, rule.name) + [] == EventsOf(events, rule.name);
    }
  }

  // ----- Whole runs -----

  /** The number of breaches in a row up to the end. */
  function Streak(rule: Rule, history: seq<Reading>): nat
  {
    if history == [] then 0
    else if Breached(rule, history[|history| - 1].latest) then Streak(rule, history[..|history| - 1]) + 1
    else 0
  }

  /** Triggered first, then Cleared and Triggered in turn. */
  ghost predicate Alternating(events: seq<Event>)
  {
    forall i :: 0 <= i < |events| ==> events[i].state == if i % 2 == 0 then Triggered else Cleared
  }

  function Capped(n: nat): nat
  {
    if n < U32_MAX then n else U32_MAX
  }

  /** What is known of a rule after a streak of the given length. */
  ghost predicate Tracks(rule: Rule, streak: nat, tracker: Tracker, events: seq<Event>)
  {
    && tracker == Tracker(streak >= rule.debounce, Capped(streak))
    && Alternating(events)
    && (|events| % 2 == 1 <==> streak >= rule.debounce)
  }

  lemma StepTracks(rule: Rule, reading: Reading, streak: nat, tracker: Tracker, events: seq<Event>)
    requires 1 <= rule.debounce <= U32_MAX && Tracks(rule, streak, tracker, events)
    ensures var (after, own) := Step(rule, reading, tracker);
      Tracks(rule, if Breached(rule, reading.latest) then streak + 1 else 0, after, events + own)
  {
  }

  /**
   * Over every run, a rule is active exactly when the unbroken streak of breaches has reached its
   * debounce, its counter is that streak (capped by its type), and its events alternate between
   * Triggered and Cleared, starting with Triggered and ending with Triggered when active.
   */
  lemma {:induction false} ActiveIffStreak(rules: seq<Rule>, history: seq<Reading>, rule: Rule)
    requires DistinctRules(rules) && rule in rules && 1 <= rule.debounce <= U32_MAX
    ensures var (trackers, events) := Run(rules, history);
      Tracks(rule, Streak(rule, history), TrackerOf(trackers, rule.name), EventsOf(events, rule.name))
  {
    if history != [] {
      var init, reading := history[..|history| - 1], history[|history| - 1];
      ActiveIffStreak(rules, init, rule);
      var (trackers, events) := Run(rules, init);
      var (after, own) := Evaluate(rules, reading, trackers);
      RuleAlone(rules, reading, trackers, rule);
      EventsOfConcat(events, own, rule.name);
      StepTracks(rule, reading, Streak(rule, init), TrackerOf(trackers, rule.name), EventsOf(events, rule.name));
    }
  }

  /** The events of a rule are exactly its changes between inactive and active. */
  lemma EventOnChange(rules: seq<Rule>, history: seq<Reading>, reading: Reading, rule: Rule)
    requires DistinctRules(rules) && rule in rules && 1 <= rule.debounce <= U32_MAX
    ensures var before := Streak(rule, history) >= rule.debounce;
      var now := Streak(rule, history + [reading]) >= rule.debounce;
      EventsOf(Run(rules, history + [reading]).1, rule.name) == EventsOf(Run(rules, history).1, rule.name) +
        if before == now then []
        else [Event(reading.timestamp, rule.name, rule.variable, if now then Triggered else Cleared, ValueOf(rule, reading.latest))]
  {
    assert (history + [reading])[..|history|] == history;
    ActiveIffStreak(rules, history, rule);
    var (trackers, events) := Run(rules, history);
    RuleAlone(rules, reading, trackers, rule);
    EventsOfConcat(events, Evaluate(rules, reading, trackers).1, rule.name);
  }

  // ----- Activity in terms of the readings -----

  /** The variable is among the reading's values, above the one limit or below the other. */
  predicate Outside(rule: Rule, reading: Reading)
  {
    && rule.variable in reading.latest
    && var value := reading.latest[rule.variable];
       (rule.above != None && value > rule.above.value) || (rule.below != None && value < rule.below.value)
  }

  /** The last `n` readings are all outside. */
  ghost predicate OutsideSince(rule: Rule, history: seq<Reading>, n: nat)
  {
    n <= |history| && forall k :: |history| - n <= k < |history| ==> Outside(rule, history[k])
  }

  lemma {:induction false} StreakSpans(rule: Rule, history: seq<Reading>, n: nat)
    ensures Streak(rule, history) >= n <==> OutsideSince(rule, history, n)
  {
    if history != [] && n > 0 {
      var init, last := history[..|history| - 1], history[|history| - 1];
      StreakSpans(rule, init, n - 1);
      assert Breached(rule, last.latest) <==> Outside(rule, last);
      assert OutsideSince(rule, history, n) <==> OutsideSince(rule, init, n - 1) && Outside(rule, last);
    }
  }

  /** After any run, a rule is active exactly when its last `debounce` readings were all outside. */
  lemma {:induction false} ActiveIffOutside(rules: seq<Rule>, history: seq<Reading>, rule: Rule)
    requires DistinctRules(rules) && rule in rules && 1 <= rule.debounce <= U32_MAX
    ensures var trackers := Run(rules, history).0;
      (rule.name in trackers && trackers[rule.name].active) <==> OutsideSince(rule, history, rule.debounce)
  {
    ActiveIffStreak(rules, history, rule);
    StreakSpans(rule, history, rule.debounce);
  }

  /** The events of one evaluation stand in the order of the rules, at most one for each. */
  lemma {:induction false} EventsInRuleOrder(rules: seq<Rule>, reading: Reading, trackers: map<string, Tracker>) returns (at: seq<nat>)
    ensures var events := Evaluate(rules, reading, trackers).1;
      && |at| == |events| && (forall i, j :: 0 <= i < j < |at| ==> at[i] < at[j])
      && forall i :: 0 <= i < |at| ==>
           && at[i] < |rules| && events[i].rule == rules[at[i]].name && events[i].variable == rules[at[i]].variable
           && events[i].timestamp == reading.timestamp && events[i].value == ValueOf(rules[at[i]], reading.latest)
  {
    at := [];
    if rules != [] {
      var init, rule := rules[..|rules| - 1], rules[|rules| - 1];
      at := EventsInRuleOrder(init, reading, trackers);
      var before := Evaluate(init, reading, trackers).0;
      if Step(rule, reading, TrackerOf(before, rule.name)).1 != [] {
        at := at + [|rules| - 1];
      }
    }
  }
}
