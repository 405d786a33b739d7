/**
  The detection engine as values: sliding windows per rule and group key, cooldown memory, and the
  periodic pruning of both. The reference it is compared with keeps the full history and never prunes.
*/
module Detection {
  import opened Wrappers

  import opened Text

  const TICKS_PER_MINUTE := 600_000_000
  const PRUNE_EVERY := 500
  const DEFAULT_WINDOW_MINUTES := 10
  const MIN_COOLDOWN_MINUTES := 60

  /** The resolved fields of an event body, by path. */
  type Fields = map<string, string>

  /**
    A rule. `key` is what the engine gets from matching an event against the rule's condition and resolving
    its group key (or the computer name instead): nothing if the event is not for this rule.
  */
  datatype Rule = Rule(id: string, enabled: bool, thresholdByKey: bool, threshold: int, windowMinutes: int,
                       cooldownMinutes: int, key: Fields -> Option<string>)

  /** An event; `number` identifies it. */
  datatype Event = Event(number: nat, ts: int, fields: Fields)

  datatype Occurrence = Occurrence(ts: int, number: nat)

  type Window = seq<Occurrence>

  datatype Alert = Alert(ruleId: string, groupKey: string, at: int, eventCount: nat, firstSeen: int, lastSeen: int,
                         matched: Window)

  predicate Active(rule: Rule) {
    rule.enabled && rule.thresholdByKey
  }

  function EffectiveCooldown(rule: Rule): int {
    if rule.cooldownMinutes > 0 then rule.cooldownMinutes else rule.windowMinutes
  }

  function Cutoff(rule: Rule, now: int): int {
    now - rule.windowMinutes * TICKS_PER_MINUTE
  }

  // ---------------------------------------------------------------- windows

  /** The occurrences that are not older than the cutoff. */
  function Live(w: Window, cutoff: int): Window {
    if w == [] then []
    else if w[0].ts >= cutoff then [w[0]] + Live(w[1..], cutoff)
    else Live(w[1..], cutoff)
  }

  function MinTs(w: Window): int
    requires w != []
  {
    if |w| == 1 then w[0].ts
    else
      var m := MinTs(w[1..]);
      if w[0].ts < m then w[0].ts else m
  }

  function MaxTs(w: Window): int
    requires w != []
  {
    if |w| == 1 then w[0].ts
    else
      var m := MaxTs(w[1..]);
      if w[0].ts > m then w[0].ts else m
  }

  function MakeAlert(rule: Rule, key: string, now: int, w: Window): Alert
    requires w != []
  {
    Alert(rule.id, key, now, |w|, MinTs(w), MaxTs(w), w)
  }

  lemma {:induction false} LiveOfConcat(a: Window, b: Window, cutoff: int)
    ensures Live(a + b, cutoff) == Live(a, cutoff) + Live(b, cutoff)
  {
    if a == [] {
      assert a + b == b;
    } else {
      assert (a + b)[1..] == a[1..] + b;
      LiveOfConcat(a[1..], b, cutoff);
    }
  }

  /** Cutting twice is cutting at the later cutoff. */
  lemma {:induction false} LiveLive(w: Window, c: int, c': int)
    requires c <= c'
    ensures Live(Live(w, c), c') == Live(w, c')
  {
    if w != [] {
      LiveLive(w[1..], c, c');
      var rest := Live(w[1..], c);
      if w[0].ts >= c {
        assert Live(w, c) == [w[0]] + rest && ([w[0]] + rest)[1..] == rest;
      }
    }
  }

  /** Windows that agree from one cutoff on agree from every later one on. */
  lemma {:induction false} AgreeLater(a: Window, b: Window, c: int, c': int)
    requires Live(a, c) == Live(b, c) && c <= c'
    ensures Live(a, c') == Live(b, c')
  {
    LiveLive(a, c, c');
    LiveLive(b, c, c');
  }

  // ---------------------------------------------------------------- the engine

  type Groups = map<string, Window>
  type Windows = map<string, Groups>

  datatype Engine = Engine(windows: Windows, lastAlert: map<string, int>, sincePrune: nat)

  const NEW_ENGINE := Engine(map[], map[], 0)

  function GroupsOf(windows: Windows, id: string): Groups {
    if id in windows then windows[id] else map[]
  }

  function WindowIn(groups: Groups, key: string): Window {
    if key in groups then groups[key] else []
  }

  function WindowOf(windows: Windows, id: string, key: string): Window {
    WindowIn(GroupsOf(windows, id), key)
  }

  function Put(windows: Windows, id: string, key: string, w: Window): Windows {
    windows[id := GroupsOf(windows, id)[key := w]]
  }

  function CooldownKey(id: string, key: string): string {
    id + "|" + key
  }

  /** One rule and one event that is for it, at time `now`. */
  function Match(e: Engine, rule: Rule, event: Event, key: string, now: int): (Engine, Option<Alert>) {
    var added := WindowOf(e.windows, rule.id, key) + [Occurrence(event.ts, event.number)];
    var w := if rule.threshold <= 1 then added else Live(added, Cutoff(rule, now));
    var cooldownKey := CooldownKey(rule.id, key);
    var kept := if |w| >= rule.threshold then [] else w;
    var windows := Put(e.windows, rule.id, key, kept);
    if |w| < rule.threshold then (e.(windows := windows), None)
    else if cooldownKey in e.lastAlert
            && now - e.lastAlert[cooldownKey] < EffectiveCooldown(rule) * TICKS_PER_MINUTE then
      (e.(windows := windows), None)
    else
      (e.(windows := windows, lastAlert := e.lastAlert[cooldownKey := now]), Some(MakeAlert(rule, key, now, w)))
  }

  function EvaluateRule(e: Engine, rule: Rule, event: Event, now: int): (Engine, Option<Alert>) {
    if !Active(rule) then (e, None)
    else
      match rule.key(event.fields)
      case None => (e, None)
      case Some(key) => Match(e, rule, event, key, now)
  }

  function ToSeq(alert: Option<Alert>): seq<Alert> {
    match alert
    case None => []
    case Some(a) => [a]
  }

  /** All rules in order; rule i reads the clock at times[i]. */
  function EvaluateRules(e: Engine, rules: seq<Rule>, event: Event, times: seq<int>): (Engine, seq<Alert>)
    requires |times| == |rules|
    decreases |rules|
  {
    if rules == [] then (e, [])
    else
      var (e1, alert) := EvaluateRule(e, rules[0], event, times[0]);
      var (e2, alerts) := EvaluateRules(e1, rules[1..], event, times[1..]);
      (e2, ToSeq(alert) + alerts)
  }

  /** The window length pruning uses for a rule id: that of the last rule with that id. */
  function WindowMinutesFor(rules: seq<Rule>, id: string): int {
    if rules == [] then DEFAULT_WINDOW_MINUTES
    else if rules[|rules| - 1].id == id then rules[|rules| - 1].windowMinutes
    else WindowMinutesFor(rules[..|rules| - 1], id)
  }

  function MaxCooldown(rules: seq<Rule>): int {
    if rules == [] then MIN_COOLDOWN_MINUTES
    else
      var m := MaxCooldown(rules[..|rules| - 1]);
      var cd := EffectiveCooldown(rules[|rules| - 1]);
      if cd > m then cd else m
  }

  function PruneGroups(groups: Groups, cutoff: int): Groups {
    map key | key in groups && Live(groups[key], cutoff) != [] :: Live(groups[key], cutoff)
  }

  function PruneCutoff(rules: seq<Rule>, id: string, now: int): int {
    now - WindowMinutesFor(rules, id) * TICKS_PER_MINUTE
  }

  function PruneWindows(windows: Windows, rules: seq<Rule>, now: int): Windows {
    map id | id in windows && PruneGroups(windows[id], PruneCutoff(rules, id, now)) != map[]
           :: PruneGroups(windows[id], PruneCutoff(rules, id, now))
  }

  function PruneCooldowns(lastAlert: map<string, int>, rules: seq<Rule>, now: int): map<string, int> {
    map k | k in lastAlert && lastAlert[k] >= now - MaxCooldown(rules) * 2 * TICKS_PER_MINUTE :: lastAlert[k]
  }

  function Prune(e: Engine, rules: seq<Rule>, now: int): Engine {
    e.(windows := PruneWindows(e.windows, rules, now), lastAlert := PruneCooldowns(e.lastAlert, rules, now))
  }

  /** One event with the clock readings made for it: one for pruning, one for each rule. */
  datatype Input = Input(event: Event, pruneTime: int, times: seq<int>)

  function EvaluateEvent(e: Engine, rules: seq<Rule>, input: Input): (Engine, seq<Alert>)
    requires |input.times| == |rules|
  {
    var counted := e.(sincePrune := e.sincePrune + 1);
    var ready := if counted.sincePrune >= PRUNE_EVERY
        then Prune(counted, rules, input.pruneTime).(sincePrune := 0) else counted;
    EvaluateRules(ready, rules, input.event, input.times)
  }

  predicate InputsFor(inputs: seq<Input>, rules: seq<Rule>) {
    forall i :: 0 <= i < |inputs| ==> |inputs[i].times| == |rules|
  }

  /** The alerts of a whole run. */
  function Run(e: Engine, rules: seq<Rule>, inputs: seq<Input>): seq<Alert>
    requires InputsFor(inputs, rules)
    decreases |inputs|
  {
    if inputs == [] then []
    else
      var (e', alerts) := EvaluateEvent(e, rules, inputs[0]);
      alerts + Run(e', rules, inputs[1..])
  }

  // ---------------------------------------------------------------- the reference

  /** The memory of one rule on its own: all matches since the last clearing, and the last alert, by group key. */
  datatype Single = Single(history: Groups, lastAlert: map<string, int>)

  const NEW_SINGLE := Single(map[], map[])

  function SingleMatch(s: Single, rule: Rule, event: Event, key: string, now: int): (Single, Option<Alert>) {
    var history := WindowIn(s.history, key) + [Occurrence(event.ts, event.number)];
    var w := if rule.threshold <= 1 then history else Live(history, Cutoff(rule, now));
    if |w| < rule.threshold then (s.(history := s.history[key := history]), None)
    else if key in s.lastAlert && now - s.lastAlert[key] < EffectiveCooldown(rule) * TICKS_PER_MINUTE then
      (s.(history := s.history[key := []]), None)
    else
      (Single(s.history[key := []], s.lastAlert[key := now]), Some(MakeAlert(rule, key, now, w)))
  }

  function SingleRule(s: Single, rule: Rule, event: Event, now: int): (Single, Option<Alert>) {
    if !Active(rule) then (s, None)
    else
      match rule.key(event.fields)
      case None => (s, None)
      case Some(key) => SingleMatch(s, rule, event, key, now)
  }

  /** Independent single-rule engines side by side. */
  function ProductRules(ss: seq<Single>, rules: seq<Rule>, event: Event, times: seq<int>): (r: (seq<Single>,
                        seq<Alert>))
    requires |times| == |rules| == |ss|
    ensures |r.0| == |rules|
  {
    if rules == [] then ([], [])
    else
      var (s, alert) := SingleRule(ss[0], rules[0], event, times[0]);
      var (rest, alerts) := ProductRules(ss[1..], rules[1..], event, times[1..]);
      ([s] + rest, ToSeq(alert) + alerts)
  }

  function ProductRun(ss: seq<Single>, rules: seq<Rule>, inputs: seq<Input>): seq<Alert>
    requires InputsFor(inputs, rules) && |ss| == |rules|
    decreases |inputs|
  {
    if inputs == [] then []
    else
      var (ss', alerts) := ProductRules(ss, rules, inputs[0].event, inputs[0].times);
      alerts + ProductRun(ss', rules, inputs[1..])
  }

  function NewProduct(rules: seq<Rule>): (ss: seq<Single>)
    ensures |ss| == |rules|
  {
    seq(|rules|, _ => NEW_SINGLE)
  }

  /** The clock never goes back. */
  predicate Monotone(inputs: seq<Input>, start: int) {
    inputs == [] ||
    (&& start <= inputs[0].pruneTime
     && Ascending(inputs[0].pruneTime, inputs[0].times)
     && Monotone(inputs[1..], LastTime(inputs[0])))
  }

  predicate Ascending(start: int, times: seq<int>)
    decreases |times|
  {
    times == [] || (start <= times[0] && Ascending(times[0], times[1..]))
  }

  function LastTime(input: Input): int {
    if input.times == [] then input.pruneTime else input.times[|input.times| - 1]
  }

  // ---------------------------------------------------------------- cooldown keys

  /** No two rules have the same id, and no id continues another one behind a bar. */
  predicate SeparateIds(rules: seq<Rule>) {
    forall i, j :: 0 <= i < |rules| && 0 <= j < |rules| && i != j ==> SeparateId(rules[i].id, rules[j].id)
  }

  predicate SeparateId(a: string, b: string) {
    a != b && !(a + "|" <= b)
  }

  /** A group key that the engine can form: the text of a field that is not all white space. */
  predicate IsKey(key: string) {
    exists i :: 0 <= i < |key| && !IsWhite(key[i])
  }

  lemma EndsInX(key: string)
    ensures IsKey(key + "x")
  {
    assert !IsWhite((key + "x")[|key|]);
  }

  /** Cooldown entries of two ids can collide exactly if the ids are equal or one continues the other behind a bar. */
  lemma CooldownKeysCollide(a: string, b: string)
    ensures (exists k, k' :: IsKey(k) && IsKey(k') && CooldownKey(a, k) == CooldownKey(b, k')) <==>
            a == b || a + "|" <= b || b + "|" <= a
  {
    hide IsKey;
    EndsInX("");
    assert "" + "x" == "x";
    if a == b {
      assert CooldownKey(a, "x") == CooldownKey(b, "x");
    } else if a + "|" <= b {
      var k := b[|a| + 1..] + "|" + "x";
      EndsInX(b[|a| + 1..] + "|");
      assert b == a + "|" + b[|a| + 1..];
      assert CooldownKey(a, k) == CooldownKey(b, "x");
    } else if b + "|" <= a {
      var k := a[|b| + 1..] + "|" + "x";
      EndsInX(a[|b| + 1..] + "|");
      assert a == b + "|" + a[|b| + 1..];
      assert CooldownKey(a, "x") == CooldownKey(b, k);
    } else {
      forall k, k'
        ensures CooldownKey(a, k) != CooldownKey(b, k')
      {
        if CooldownKey(a, k) == CooldownKey(b, k') {
          KeysMeet(a, k, b, k');
        }
      }
    }
  }

  lemma KeysMeet(a: string, k: string, b: string, k': string)
    requires CooldownKey(a, k) == CooldownKey(b, k')
    ensures a == b || a + "|" <= b || b + "|" <= a
  {
    var x, y := CooldownKey(a, k), CooldownKey(b, k');
    assert x[..|a|] == a && x[..|a| + 1] == a + "|" && y[..|b|] == b && y[..|b| + 1] == b + "|";
    if |a| < |b| {
      assert y[..|b|][..|a| + 1] == y[..|a| + 1];
    } else if |b| < |a| {
      assert x[..|a|][..|b| + 1] == x[..|b| + 1];
    }
  }

  lemma SameKey(a: string, k: string, k': string)
    ensures CooldownKey(a, k) == CooldownKey(a, k') <==> k == k'
  {
    var x, y := CooldownKey(a, k), CooldownKey(a, k');
    assert x[|a| + 1..] == k && y[|a| + 1..] == k';
  }
}
