/**
  Exactly which alerts a run of the detection engine raises: the rule's own fields, the events seen and the alerts
  already raised decide, and nothing that pruning does.
*/
module Alerts {
  import opened Wrappers
  import opened Detection
  import opened DetectionRefinement
  import opened DetectionRuns

  // ---------------------------------------------------------------- what counts

  /** A threshold of one counts every occurrence, any other those of the last windowMinutes. */
  predicate Counts(rule: Rule, o: Occurrence, now: int) {
    rule.threshold <= 1 || o.ts >= now - rule.windowMinutes * 60 * SECOND
  }

  /** The places in the window of what counts. */
  function Places(rule: Rule, w: Window, now: int): set<int> {
    set i | 0 <= i < |w| && Counts(rule, w[i], now)
  }

  predicate Reaches(rule: Rule, w: Window, now: int) {
    |Places(rule, w, now)| >= rule.threshold
  }

  function OccurrenceOf(x: Input): Occurrence {
    Occurrence(x.event.ts, x.event.number)
  }

  predicate IsFor(rule: Rule, x: Input, key: string) {
    rule.enabled && rule.thresholdByKey && rule.key(x.event.fields) == Some(key)
  }

  /** The matches of rule i under one key since the threshold was last reached, alert or not. */
  function Pending(rule: Rule, i: nat, xs: seq<Input>, key: string): Window
    requires forall j :: 0 <= j < |xs| ==> i < |xs[j].times|
  {
    if xs == [] then []
    else
      var before, x := Pending(rule, i, xs[..|xs| - 1], key), xs[|xs| - 1];
      if !IsFor(rule, x, key) then before
      else if Reaches(rule, before + [OccurrenceOf(x)], x.times[i]) then []
      else before + [OccurrenceOf(x)]
  }

  /** No alert for the key was raised within the cooldown, or within the window if the rule has no cooldown. */
  predicate Quiet(rule: Rule, alerts: seq<Alert>, key: string, now: int) {
    var minutes := if rule.cooldownMinutes > 0 then rule.cooldownMinutes else rule.windowMinutes;
    forall a :: a in alerts && a.groupKey == key ==> now - a.at >= minutes * 60 * SECOND
  }

  /** The alert counts exactly the matches that count, and says when they were seen first and last. */
  ghost predicate Tells(a: Alert, rule: Rule, key: string, w: Window, now: int) {
    && a.ruleId == rule.id && a.groupKey == key && a.at == now
    && (forall o :: o in a.matched <==> o in w && Counts(rule, o, now))
    && a.eventCount == |a.matched| == |Places(rule, w, now)|
    && (forall o :: o in a.matched ==> a.firstSeen <= o.ts <= a.lastSeen)
    && (exists o :: o in a.matched && o.ts == a.firstSeen) && (exists o :: o in a.matched && o.ts == a.lastSeen)
  }

  // ---------------------------------------------------------------- windows

  lemma PlacesSnoc(rule: Rule, w: Window, o: Occurrence, now: int)
    ensures |Places(rule, w + [o], now)| == |Places(rule, w, now)| + if Counts(rule, o, now) then 1 else 0
  {
    assert Places(rule, w + [o], now) == Places(rule, w, now) + if Counts(rule, o, now) then {|w|} else {};
  }

  lemma NoPlaces(rule: Rule, now: int)
    ensures Places(rule, [], now) == {}
  {}

  function Counted(rule: Rule, w: Window, now: int): Window {
    if rule.threshold <= 1 then w else Live(w, Cutoff(rule, now))
  }

  lemma {:induction false} CountedSnoc(rule: Rule, w: Window, o: Occurrence, now: int)
    ensures Counted(rule, w + [o], now) == Counted(rule, w, now) + if Counts(rule, o, now) then [o] else []
    ensures Counted(rule, [], now) == []
  {
    LiveOfConcat(w, [o], Cutoff(rule, now));
    assert [o][1..] == [] && Live([], Cutoff(rule, now)) == [];
  }

  /** The window that is compared with the threshold holds what counts. */
  lemma {:induction false} CountedMeaning(rule: Rule, w: Window, now: int)
    ensures forall o :: o in Counted(rule, w, now) <==> o in w && Counts(rule, o, now)
    ensures |Counted(rule, w, now)| == |Places(rule, w, now)|
    decreases |w|
  {
    hide Counted, Places, Counts;
    if w == [] {
      CountedSnoc(rule, [], Occurrence(0, 0), now);
      NoPlaces(rule, now);
    } else {
      var d, o := w[..|w| - 1], w[|w| - 1];
      assert w == d + [o];
      CountedMeaning(rule, d, now);
      CountedSnoc(rule, d, o, now);
      PlacesSnoc(rule, d, o, now);
    }
  }

  lemma {:induction false} MinMeaning(w: Window)
    requires w != []
    ensures (forall o :: o in w ==> MinTs(w) <= o.ts) && exists o :: o in w && o.ts == MinTs(w)
  {
    assert w == [w[0]] + w[1..];
    if |w| == 1 {
      assert w[0] in w;
    } else {
      MinMeaning(w[1..]);
      var o :| o in w[1..] && o.ts == MinTs(w[1..]);
      assert o in w && w[0] in w;
    }
  }

  lemma {:induction false} MaxMeaning(w: Window)
    requires w != []
    ensures (forall o :: o in w ==> o.ts <= MaxTs(w)) && exists o :: o in w && o.ts == MaxTs(w)
  {
    assert w == [w[0]] + w[1..];
    if |w| == 1 {
      assert w[0] in w;
    } else {
      MaxMeaning(w[1..]);
      var o :| o in w[1..] && o.ts == MaxTs(w[1..]);
      assert o in w && w[0] in w;
    }
  }

  // ---------------------------------------------------------------- one rule on its own

  function SingleState(s: Single, rules: seq<Rule>, i: nat, xs: seq<Input>): Single
    requires i < |rules| && InputsFor(xs, rules)
    decreases |xs|
  {
    if xs == [] then s
    else SingleState(SingleRule(s, rules[i], xs[0].event, xs[0].times[i]).0, rules, i, xs[1..])
  }

  lemma {:induction false} SingleSnoc(s: Single, rules: seq<Rule>, i: nat, xs: seq<Input>, x: Input)
    requires i < |rules| && InputsFor(xs, rules) && |x.times| == |rules|
    ensures InputsFor(xs + [x], rules)
    ensures var step := SingleRule(SingleState(s, rules, i, xs), rules[i], x.event, x.times[i]);
            && SingleState(s, rules, i, xs + [x]) == step.0
            && SingleRun(s, rules, i, xs + [x]) == SingleRun(s, rules, i, xs) + ToSeq(step.1)
    decreases |xs|
  {
    hide SingleRule;
    if xs == [] {
      assert [] + [x] == [x] && [x][1..] == [];
      var a := ToSeq(SingleRule(s, rules[i], x.event, x.times[i]).1);
      assert a + [] == a && [] + a == a;
    } else {
      assert (xs + [x])[1..] == xs[1..] + [x];
      SingleSnoc(SingleRule(s, rules[i], xs[0].event, xs[0].times[i]).0, rules, i, xs[1..], x);
    }
  }

  /** What the rule remembers, given the matches pending and the alerts raised so far; `now` bounds the clock. */
  ghost predicate Remembers(s: Single, rule: Rule, i: nat, xs: seq<Input>, alerts: seq<Alert>, now: int)
    requires forall j :: 0 <= j < |xs| ==> i < |xs[j].times|
  {
    && (forall key :: WindowIn(s.history, key) == Pending(rule, i, xs, key))
    && (forall key :: key in s.lastAlert ==> exists a :: a in alerts && a.groupKey == key && a.at == s.lastAlert[key])
    && (forall a :: a in alerts ==> a.groupKey in s.lastAlert && a.at <= s.lastAlert[a.groupKey] <= now)
  }

  /** The right alert for the next event, or none. */
  ghost predicate Right(rule: Rule, i: nat, xs: seq<Input>, x: Input, alerts: seq<Alert>, alert: Option<Alert>)
    requires (forall j :: 0 <= j < |xs| ==> i < |xs[j].times|) && i < |x.times|
  {
    if !rule.enabled || !rule.thresholdByKey || rule.key(x.event.fields).None? then alert.None?
    else
      var key := rule.key(x.event.fields).value;
      var w := Pending(rule, i, xs, key) + [OccurrenceOf(x)];
      if Reaches(rule, w, x.times[i]) && Quiet(rule, alerts, key, x.times[i])
      then alert.Some? && Tells(alert.value, rule, key, w, x.times[i])
      else alert.None?
  }

  lemma QuietMeans(s: Single, rule: Rule, i: nat, xs: seq<Input>, alerts: seq<Alert>, key: string, last: int, now: int)
    requires forall j :: 0 <= j < |xs| ==> i < |xs[j].times|
    requires Remembers(s, rule, i, xs, alerts, last)
    ensures Quiet(rule, alerts, key, now) <==>
            !(key in s.lastAlert && now - s.lastAlert[key] < EffectiveCooldown(rule) * TICKS_PER_MINUTE)
  {}

  lemma ReachesIs(rule: Rule, w: Window, now: int)
    ensures Reaches(rule, w, now) <==> |Counted(rule, w, now)| >= rule.threshold
  {
    hide Live;
    CountedMeaning(rule, w, now);
  }

  /** What one matching event does. */
  lemma MatchSteps(s: Single, rule: Rule, x: Input, i: nat, key: string)
    requires rule.enabled && rule.thresholdByKey && rule.key(x.event.fields) == Some(key) && i < |x.times|
    ensures var now := x.times[i];
            var (s', alert) := SingleRule(s, rule, x.event, now);
            var w := WindowIn(s.history, key) + [OccurrenceOf(x)];
            var quiet := !(key in s.lastAlert && now - s.lastAlert[key] < EffectiveCooldown(rule) * TICKS_PER_MINUTE);
            && s'.history == s.history[key := if Reaches(rule, w, now) then [] else w]
            && s'.lastAlert == (if Reaches(rule, w, now) && quiet then s.lastAlert[key := now] else s.lastAlert)
            && alert.Some? == (Reaches(rule, w, now) && quiet)
            && (alert.Some? ==> Tells(alert.value, rule, key, w, now))
  {
    hide Live, MinTs, MaxTs, Reaches;
    var now := x.times[i];
    var w := WindowIn(s.history, key) + [OccurrenceOf(x)];
    ReachesIs(rule, w, now);
    CountedMeaning(rule, w, now);
    if Reaches(rule, w, now) {
      MinMeaning(Counted(rule, w, now));
      MaxMeaning(Counted(rule, w, now));
    }
  }

  lemma {:induction false} PendingSnoc(rule: Rule, i: nat, xs: seq<Input>, x: Input, key: string)
    requires (forall j :: 0 <= j < |xs| ==> i < |xs[j].times|) && i < |x.times|
    ensures var before := Pending(rule, i, xs, key);
            Pending(rule, i, xs + [x], key) ==
            if !IsFor(rule, x, key) then before
            else if Reaches(rule, before + [OccurrenceOf(x)], x.times[i]) then []
            else before + [OccurrenceOf(x)]
  {
    hide Reaches;
    assert (xs + [x])[..|xs|] == xs;
  }

  /** One more event: the rule raises what it should, and remembers what it should. */
  lemma SingleExactly(s: Single, rule: Rule, i: nat, xs: seq<Input>, x: Input, alerts: seq<Alert>, last: int)
    requires forall j :: 0 <= j < |xs| ==> i < |xs[j].times|
    requires i < |x.times| && last <= x.times[i] && Remembers(s, rule, i, xs, alerts, last)
    ensures var (s', alert) := SingleRule(s, rule, x.event, x.times[i]);
            && Remembers(s', rule, i, xs + [x], alerts + ToSeq(alert), x.times[i])
            && Right(rule, i, xs, x, alerts, alert)
  {
    hide Quiet, Reaches, SingleMatch, Pending;
    var now := x.times[i];
    var (s', alert) := SingleRule(s, rule, x.event, now);
    forall key
      ensures WindowIn(s'.history, key) == Pending(rule, i, xs + [x], key)
    {
      PendingSnoc(rule, i, xs, x, key);
      if IsFor(rule, x, key) {
        MatchSteps(s, rule, x, i, key);
      } else if Active(rule) && rule.key(x.event.fields).Some? {
        MatchSteps(s, rule, x, i, rule.key(x.event.fields).value);
      }
    }
    if Active(rule) && rule.key(x.event.fields).Some? {
      var key := rule.key(x.event.fields).value;
      MatchSteps(s, rule, x, i, key);
      QuietMeans(s, rule, i, xs, alerts, key, last, now);
      if alert.Some? {
        assert alert.value in alerts + [alert.value];
      }
      forall k | k in s'.lastAlert
        ensures exists a :: a in alerts + ToSeq(alert) && a.groupKey == k && a.at == s'.lastAlert[k]
      {
        if k != key || alert.None? {
          var a :| a in alerts && a.groupKey == k && a.at == s.lastAlert[k];
          assert a in alerts + ToSeq(alert);
        }
      }
    } else {
      assert alerts + [] == alerts;
    }
  }

  lemma {:induction false} RunExactly(rules: seq<Rule>, i: nat, xs: seq<Input>, start: int)
    requires i < |rules| && InputsFor(xs, rules) && Monotone(xs, start)
    ensures Remembers(SingleState(NEW_SINGLE, rules, i, xs), rules[i], i, xs, SingleRun(NEW_SINGLE, rules, i, xs),
                      LastClock(xs, start, i))
    decreases |xs|
  {
    hide SingleRule, Remembers, SingleState, SingleRun, Monotone;
    if xs == [] {
      NothingSeen(rules, i, start);
    } else {
      var before, x := xs[..|xs| - 1], xs[|xs| - 1];
      assert xs == before + [x];
      MonotoneParts(before, x, start, i);
      RunExactly(rules, i, before, start);
      SingleSnoc(NEW_SINGLE, rules, i, before, x);
      SingleExactly(SingleState(NEW_SINGLE, rules, i, before), rules[i], i, before, x,
                    SingleRun(NEW_SINGLE, rules, i, before), LastClock(before, start, i));
    }
  }

  function LastClock(xs: seq<Input>, start: int, i: nat): int
    requires forall j :: 0 <= j < |xs| ==> i < |xs[j].times|
  {
    if xs == [] then start else xs[|xs| - 1].times[i]
  }

  lemma {:induction false} NothingSeen(rules: seq<Rule>, i: nat, start: int)
    requires i < |rules|
    ensures Remembers(SingleState(NEW_SINGLE, rules, i, []), rules[i], i, [], SingleRun(NEW_SINGLE, rules, i, []),
                      start)
  {}

  lemma {:induction false} MonotoneParts(xs: seq<Input>, x: Input, start: int, i: nat)
    requires Monotone(xs + [x], start) && (forall j :: 0 <= j < |xs| ==> i < |xs[j].times|) && i < |x.times|
    ensures Monotone(xs, start) && LastClock(xs, start, i) <= x.times[i]
    decreases |xs|
  {
    if xs == [] {
      assert ([] + [x])[0] == x;
      TimesFrom(x.pruneTime, x.times, i);
    } else {
      assert (xs + [x])[0] == xs[0] && (xs + [x])[1..] == xs[1..] + [x];
      MonotoneParts(xs[1..], x, LastTime(xs[0]), i);
      TimesFrom(xs[0].pruneTime, xs[0].times, i);
    }
  }

  // ---------------------------------------------------------------- the engine

  /**
    Exactly the alerts of a run, event by event: rule i raises one if and only if it is enabled and the event is for
    it, the matches pending under the event's key, this one included, reach the threshold, and no alert was raised for
    the key within the cooldown.
  */
  lemma {:induction false} AlertsExactly(rules: seq<Rule>, i: nat, xs: seq<Input>, x: Input, start: int)
    requires SeparateIds(rules) && i < |rules| && InputsFor(xs, rules) && |x.times| == |rules|
    requires Monotone(xs + [x], start)
    ensures InputsFor(xs + [x], rules)
    ensures var before := AlertsOf(Run(NEW_ENGINE, rules, xs), rules[i].id);
            var after := AlertsOf(Run(NEW_ENGINE, rules, xs + [x]), rules[i].id);
            exists alert :: after == before + ToSeq(alert) && Right(rules[i], i, xs, x, before, alert)
  {
    hide Run, AlertsOf, SingleRule, Remembers, Right, Monotone, SingleRun, SingleState, SeparateIds;
    SingleSnoc(NEW_SINGLE, rules, i, xs, x);
    MonotoneParts(xs, x, start, i);
    PruningIsInvisible(rules, xs, start);
    PruningIsInvisible(rules, xs + [x], start);
    ProductRunAlerts(NewProduct(rules), rules, i, xs);
    ProductRunAlerts(NewProduct(rules), rules, i, xs + [x]);
    RunExactly(rules, i, xs, start);
    SingleExactly(SingleState(NEW_SINGLE, rules, i, xs), rules[i], i, xs, x, SingleRun(NEW_SINGLE, rules, i, xs),
                  LastClock(xs, start, i));
  }

  // ---------------------------------------------------------------- what pruning forgets

  function CooldownOf(rule: Rule): int {
    if rule.cooldownMinutes > 0 then rule.cooldownMinutes else rule.windowMinutes
  }

  /** Cooldowns are remembered for twice the longest one of any rule, and for two hours at least. */
  lemma {:induction false} MaxCooldownMeaning(rules: seq<Rule>)
    ensures MaxCooldown(rules) >= 60 && forall rule :: rule in rules ==> MaxCooldown(rules) >= CooldownOf(rule)
    ensures MaxCooldown(rules) == 60 || exists rule :: rule in rules && MaxCooldown(rules) == CooldownOf(rule)
    decreases |rules|
  {
    if rules != [] {
      var d, last := rules[..|rules| - 1], rules[|rules| - 1];
      assert rules == d + [last] && last in rules;
      MaxCooldownMeaning(d);
    }
  }

  /**
    A prune forgets exactly the occurrences older than the window of their rule, the keys and rules left without any,
    and the alerts older than twice the longest cooldown.
  */
  lemma {:induction false} PruneExactly(e: Engine, rules: seq<Rule>, k: nat, key: string, now: int)
    requires SeparateIds(rules) && k < |rules|
    ensures var rule, e' := rules[k], Prune(e, rules, now);
            var w, w' := WindowOf(e.windows, rule.id, key), WindowOf(e'.windows, rule.id, key);
            && (forall o :: o in w' <==> o in w && o.ts >= now - rule.windowMinutes * 60 * SECOND)
            && (key in GroupsOf(e'.windows, rule.id) <==> w' != [])
            && (rule.id in e'.windows ==> e'.windows[rule.id] != map[])
    ensures forall c :: c in Prune(e, rules, now).lastAlert <==>
                          c in e.lastAlert && e.lastAlert[c] >= now - 2 * MaxCooldown(rules) * 60 * SECOND
    ensures Prune(e, rules, now).sincePrune == e.sincePrune
  {
    hide MaxCooldown, SeparateIds, WindowMinutesFor;
    WindowMinutesOf(rules, k);
    PrunedWindow(e.windows, rules, now, rules[k].id, key);
    LiveTimes(WindowOf(e.windows, rules[k].id, key), PruneCutoff(rules, rules[k].id, now));
    LiveTimes([], 0);
  }

  lemma {:induction false} LiveTimes(w: Window, c: int)
    ensures forall o :: o in Live(w, c) <==> o in w && o.ts >= c
  {
    if w != [] {
      assert w == [w[0]] + w[1..];
      LiveTimes(w[1..], c);
    }
  }

  /** Every 500th event prunes, before it is evaluated, and no other. */
  lemma {:induction false} PrunesExactly(e: Engine, rules: seq<Rule>, input: Input)
    requires |input.times| == |rules|
    ensures var counted := e.(sincePrune := e.sincePrune + 1);
            var pruned := Prune(e, rules, input.pruneTime).(sincePrune := 0);
            EvaluateEvent(e, rules, input) ==
            EvaluateRules(if e.sincePrune + 1 < 500 then counted else pruned, rules, input.event, input.times)
  {
    hide MaxCooldown, PruneWindows, EvaluateRules;
  }
}
