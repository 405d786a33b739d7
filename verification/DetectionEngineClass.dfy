/** The engine as the class that updates its dictionaries in place, proved against module Detection. */
module DetectionEngineClass {
  import opened Wrappers
  import opened Detection

  class DetectionEngine {
    const rules: seq<Rule>
    var windows: Windows
    var lastAlertTime: map<string, int>
    var evaluationsSincePrune: nat

    function State(): Engine
      reads this
    {
      Engine(windows, lastAlertTime, evaluationsSincePrune)
    }

    constructor (rules: seq<Rule>)
      ensures this.rules == rules && State() == NEW_ENGINE
    {
      this.rules := rules;
      windows, lastAlertTime, evaluationsSincePrune := map[], map[], 0;
    }

    /** Evaluates one event against all rules; rule i reads the clock at times[i]. */
    method EvaluateEvent(evt: Event, pruneTime: int, times: seq<int>) returns (alerts: seq<Alert>)
      requires |times| == |rules|
      modifies this
      ensures (State(), alerts) == Detection.EvaluateEvent(old(State()), rules, Input(evt, pruneTime, times))
    {
      hide Prune, EvaluateRule, EvaluateRules;
      alerts := [];
      evaluationsSincePrune := evaluationsSincePrune + 1;
      if evaluationsSincePrune >= PRUNE_EVERY {
        PruneExpiredWindows(pruneTime);
        evaluationsSincePrune := 0;
      }
      ghost var all := EvaluateRules(State(), rules, evt, times);
      assert all == Detection.EvaluateEvent(old(State()), rules, Input(evt, pruneTime, times));
      assert rules[0..] == rules && times[0..] == times;
      NoRules(State(), rules, evt, times, alerts);
      for i := 0 to |rules|
        invariant all == After(alerts, EvaluateRules(State(), rules[i..], evt, times[i..]))
      {
        var rule := rules[i];
        ghost var before, e := alerts, State();
        var alert: Option<Alert> := None;
        if rule.enabled && rule.thresholdByKey {
          alert := EvaluateThresholdByKey(rule, evt, times[i]);
          if alert.Some? {
            alerts := alerts + [alert.value];
          }
        } else {
          Inactive(State(), rule, evt, times[i]);
        }
        OneRule(e, rules, i, evt, times, before);
        assert alert.None? ==> before + [] == before;
      }
      NoRules(State(), rules, evt, times, alerts);
    }

    /** One rule on one event. */
    method EvaluateThresholdByKey(rule: Rule, evt: Event, now: int) returns (alert: Option<Alert>)
      requires Active(rule)
      modifies this`windows, this`lastAlertTime
      ensures (State(), alert) == EvaluateRule(old(State()), rule, evt, now)
    {
      hide MinTs, MaxTs, CooldownKey, Live;
      var matched := rule.key(evt.fields);
      if matched.None? {
        return None;
      }
      var groupKey := matched.value;
      if rule.id !in windows {
        windows := windows[rule.id := map[]];
      }
      if groupKey !in windows[rule.id] {
        windows := windows[rule.id := windows[rule.id][groupKey := []]];
      }
      ghost var before := old(windows);
      Entered(before, rule.id, groupKey);
      var window := windows[rule.id][groupKey] + [Occurrence(evt.ts, evt.number)];
      if !(rule.threshold <= 1) {
        window := RemoveOlder(window, now - rule.windowMinutes * TICKS_PER_MINUTE);
      }
      windows := windows[rule.id := windows[rule.id][groupKey := window]];
      PutTwice(before, rule.id, groupKey, WindowOf(before, rule.id, groupKey), window);
      PutTwice(before, rule.id, groupKey, window, []);

      if |window| >= rule.threshold {
        var cooldownKey := CooldownKey(rule.id, groupKey);
        var effectiveCooldown := if rule.cooldownMinutes > 0 then rule.cooldownMinutes else rule.windowMinutes;
        if cooldownKey in lastAlertTime {
          var elapsed := now - lastAlertTime[cooldownKey];
          if elapsed < effectiveCooldown * TICKS_PER_MINUTE {
            windows := windows[rule.id := windows[rule.id][groupKey := []]];
            return None;
          }
        }
        lastAlertTime := lastAlertTime[cooldownKey := now];
        alert := Some(Alert(rule.id, groupKey, now, |window|, MinTs(window), MaxTs(window), window));
        windows := windows[rule.id := windows[rule.id][groupKey := []]];
        return;
      }
      return None;
    }

    /** List.RemoveAll(e => e.Timestamp < cutoff). */
    method RemoveOlder(w: Window, cutoff: int) returns (kept: Window)
      ensures kept == Live(w, cutoff)
    {
      kept := [];
      assert w[0..] == w;
      for i := 0 to |w|
        invariant Live(w, cutoff) == kept + Live(w[i..], cutoff)
      {
        assert w[i..][1..] == w[i + 1..];
        if !(w[i].ts < cutoff) {
          kept := kept + [w[i]];
        }
      }
    }

    /** Drops expired occurrences, then empty keys, then empty rules, and stale cooldown entries. */
    method PruneExpiredWindows(now: int)
      modifies this`windows, this`lastAlertTime
      ensures State() == Prune(old(State()), rules, now)
    {
      hide Live, WindowMinutesFor, MaxCooldown, PruneGroups;
      var pruned: Windows := map[];
      var todo := windows.Keys;
      while todo != {}
        invariant windows == old(windows) && lastAlertTime == old(lastAlertTime) && todo <= windows.Keys
        invariant forall id :: id in pruned <==>
                    id in windows && id !in todo && PruneGroups(windows[id], PruneCutoff(rules, id, now)) != map[]
        invariant forall id :: id in pruned ==> pruned[id] == PruneGroups(windows[id], PruneCutoff(rules, id, now))
        decreases |todo|
      {
        var id :| id in todo;
        var windowMinutes := WindowMinutesOf(id);
        var groups := PruneRule(windows[id], now - windowMinutes * TICKS_PER_MINUTE);
        if groups != map[] {
          pruned := pruned[id := groups];
        }
        todo := todo - {id};
      }
      assert pruned == PruneWindows(windows, rules, now);
      windows := pruned;
      PruneStaleCooldowns(now);
    }

    /** Drops cooldown entries older than twice the longest effective cooldown. */
    method PruneStaleCooldowns(now: int)
      modifies this`lastAlertTime
      ensures lastAlertTime == PruneCooldowns(old(lastAlertTime), rules, now)
    {
      hide MaxCooldown;
      var maxCooldownMinutes := MIN_COOLDOWN_MINUTES;
      assert MaxCooldown(rules[..0]) == MIN_COOLDOWN_MINUTES by { NoCooldown(rules); }
      for i := 0 to |rules|
        invariant lastAlertTime == old(lastAlertTime)
        invariant maxCooldownMinutes == MaxCooldown(rules[..i])
      {
        var cd := if rules[i].cooldownMinutes > 0 then rules[i].cooldownMinutes else rules[i].windowMinutes;
        CooldownSnoc(rules, i);
        if cd > maxCooldownMinutes {
          maxCooldownMinutes := cd;
        }
      }
      assert rules[..|rules|] == rules;
      var cooldownCutoff := now - maxCooldownMinutes * 2 * TICKS_PER_MINUTE;
      var last := lastAlertTime;
      lastAlertTime := map k | k in last && !(last[k] < cooldownCutoff) :: last[k];
    }

    method PruneRule(groups: Groups, cutoff: int) returns (pruned: Groups)
      ensures pruned == PruneGroups(groups, cutoff)
    {
      hide Live;
      pruned := map[];
      var todo := groups.Keys;
      while todo != {}
        invariant todo <= groups.Keys
        invariant forall key :: key in pruned <==> key in groups && key !in todo && Live(groups[key], cutoff) != []
        invariant forall key :: key in pruned ==> pruned[key] == Live(groups[key], cutoff)
        decreases |todo|
      {
        var key :| key in todo;
        var occurrences := RemoveOlder(groups[key], cutoff);
        if |occurrences| != 0 {
          pruned := pruned[key := occurrences];
        }
        todo := todo - {key};
      }
    }

    /** The dictionary lookup of window lengths by rule id: later rules overwrite earlier ones. */
    method WindowMinutesOf(id: string) returns (minutes: int)
      ensures minutes == WindowMinutesFor(rules, id)
    {
      minutes := DEFAULT_WINDOW_MINUTES;
      for i := 0 to |rules|
        invariant minutes == WindowMinutesFor(rules[..i], id)
      {
        assert rules[..i + 1][..i] == rules[..i];
        if rules[i].id == id {
          minutes := rules[i].windowMinutes;
        }
      }
      assert rules[..|rules|] == rules;
    }
  }

  function After(alerts: seq<Alert>, rest: (Engine, seq<Alert>)): (Engine, seq<Alert>) {
    (rest.0, alerts + rest.1)
  }

  lemma {:induction false} OneRule(e: Engine, rules: seq<Rule>, i: nat, evt: Event, times: seq<int>, alerts: seq<Alert>)
    requires i < |rules| == |times|
    ensures var (e1, alert) := EvaluateRule(e, rules[i], evt, times[i]);
            After(alerts, EvaluateRules(e, rules[i..], evt, times[i..])) ==
            After(alerts + ToSeq(alert), EvaluateRules(e1, rules[i + 1..], evt, times[i + 1..]))
  {
    hide EvaluateRule;
    assert rules[i..][1..] == rules[i + 1..] && times[i..][1..] == times[i + 1..];
    var (e1, alert) := EvaluateRule(e, rules[i], evt, times[i]);
    var rest := EvaluateRules(e1, rules[i + 1..], evt, times[i + 1..]);
    assert alerts + (ToSeq(alert) + rest.1) == alerts + ToSeq(alert) + rest.1;
  }

  lemma {:induction false} NoRules(e: Engine, rules: seq<Rule>, evt: Event, times: seq<int>, alerts: seq<Alert>)
    requires |rules| == |times|
    ensures After(alerts, EvaluateRules(e, rules[|rules|..], evt, times[|rules|..])) == (e, alerts)
    ensures After([], EvaluateRules(e, rules, evt, times)) == EvaluateRules(e, rules, evt, times)
  {
    assert alerts + [] == alerts;
    assert [] + EvaluateRules(e, rules, evt, times).1 == EvaluateRules(e, rules, evt, times).1;
  }

  lemma Inactive(e: Engine, rule: Rule, evt: Event, now: int)
    requires !Active(rule)
    ensures EvaluateRule(e, rule, evt, now) == (e, None)
  {}

  /** Making sure that there is an entry leaves an existing one alone. */
  lemma Entered(windows: Windows, id: string, key: string)
    ensures var w1 := if id in windows then windows else windows[id := map[]];
            var w2 := if key in w1[id] then w1 else w1[id := w1[id][key := []]];
            w2 == Put(windows, id, key, WindowOf(windows, id, key))
  {
    if id in windows && key in windows[id] {
      assert windows[id][key := windows[id][key]] == windows[id];
    }
  }

  lemma PutTwice(windows: Windows, id: string, key: string, a: Window, b: Window)
    ensures var once := Put(windows, id, key, a);
            && id in once && key in once[id] && once[id][key] == a
            && once[id := once[id][key := b]] == Put(windows, id, key, b)
  {
    var once := Put(windows, id, key, a);
    assert once[id][key := b] == GroupsOf(windows, id)[key := b];
  }

  lemma NoCooldown(rules: seq<Rule>)
    ensures MaxCooldown(rules[..0]) == MIN_COOLDOWN_MINUTES
  {}

  lemma CooldownSnoc(rules: seq<Rule>, i: nat)
    requires i < |rules|
    ensures var m, cd := MaxCooldown(rules[..i]), EffectiveCooldown(rules[i]);
            MaxCooldown(rules[..i + 1]) == if cd > m then cd else m
  {
    assert rules[..i + 1][..i] == rules[..i];
  }
}
