/**
  The engine raises exactly the alerts of independent single-rule engines that keep every match and
  never prune; and what follows from that for whole runs.
*/
module DetectionRefinement {
  import opened Wrappers
  import opened Detection

  // ---------------------------------------------------------------- the refinement relation

  predicate CooldownAgrees(last: map<string, int>, single: map<string, int>, rule: Rule, key: string, now: int) {
    var k := CooldownKey(rule.id, key);
    && (k in last ==> key in single && single[key] == last[k])
    && (key in single && k !in last ==> now - single[key] >= EffectiveCooldown(rule) * TICKS_PER_MINUTE)
  }

  /** The engine's window and cooldown entry mean the same as the full history, now and later. */
  predicate Agrees(e: Engine, s: Single, rule: Rule, key: string, now: int) {
    var w, h := WindowOf(e.windows, rule.id, key), WindowIn(s.history, key);
    && (rule.threshold <= 1 ==> w == [] && h == [])
    && Live(w, Cutoff(rule, now)) == Live(h, Cutoff(rule, now))
    && CooldownAgrees(e.lastAlert, s.lastAlert, rule, key, now)
  }

  ghost predicate Refines(e: Engine, ss: seq<Single>, rules: seq<Rule>, now: int) {
    |ss| == |rules| &&
    forall i, key :: 0 <= i < |rules| ==> Agrees(e, ss[i], rules[i], key, now)
  }

  lemma AgreesLater(e: Engine, s: Single, rule: Rule, key: string, now: int, now': int)
    requires Agrees(e, s, rule, key, now) && now <= now'
    ensures Agrees(e, s, rule, key, now')
  {
    AgreeLater(WindowOf(e.windows, rule.id, key), WindowIn(s.history, key), Cutoff(rule, now), Cutoff(rule, now'));
  }

  lemma RefinesLater(e: Engine, ss: seq<Single>, rules: seq<Rule>, now: int, now': int)
    requires Refines(e, ss, rules, now) && now <= now'
    ensures Refines(e, ss, rules, now')
  {
    hide Agrees;
    forall i, key | 0 <= i < |rules|
      ensures Agrees(e, ss[i], rules[i], key, now')
    {
      AgreesLater(e, ss[i], rules[i], key, now, now');
    }
  }

  // ---------------------------------------------------------------- one rule, one event

  lemma MatchAgrees(e: Engine, s: Single, rule: Rule, event: Event, key: string, now: int)
    requires Agrees(e, s, rule, key, now)
    ensures var (e', a) := Match(e, rule, event, key, now);
            var (s', b) := SingleMatch(s, rule, event, key, now);
            a == b && Agrees(e', s', rule, key, now)
  {
    hide Live, MakeAlert, CooldownKey;
    var o := [Occurrence(event.ts, event.number)];
    var w, h := WindowOf(e.windows, rule.id, key), WindowIn(s.history, key);
    var c := Cutoff(rule, now);
    LiveOfConcat(w, o, c);
    LiveOfConcat(h, o, c);
    LiveLive(w + o, c, c);
  }

  /** Nothing changes for another rule or another group key. */
  lemma MatchOthers(e: Engine, rule: Rule, event: Event, key: string, now: int, s: Single, other: Rule, key': string)
    requires Agrees(e, s, other, key', now)
    requires other.id != rule.id || key' != key
    requires CooldownKey(other.id, key') != CooldownKey(rule.id, key)
    ensures Agrees(Match(e, rule, event, key, now).0, s, other, key', now)
  {
    hide Live, MakeAlert, CooldownKey;
  }

  lemma SingleOthers(s: Single, rule: Rule, event: Event, key: string, now: int, e: Engine, key': string)
    requires Agrees(e, s, rule, key', now) && key' != key
    ensures Agrees(e, SingleMatch(s, rule, event, key, now).0, rule, key', now)
  {
    hide Live, MakeAlert, CooldownKey;
  }

  lemma RuleRefines(e: Engine, ss: seq<Single>, rules: seq<Rule>, k: nat, event: Event, now: int)
    requires Refines(e, ss, rules, now) && SeparateIds(rules) && k < |rules|
    ensures var (e', a) := EvaluateRule(e, rules[k], event, now);
            var (s', b) := SingleRule(ss[k], rules[k], event, now);
            a == b && Refines(e', ss[k := s'], rules, now)
  {
    hide Agrees, Match, SingleMatch, CooldownKey, SeparateId;
    var rule := rules[k];
    if Active(rule) && rule.key(event.fields).Some? {
      var key := rule.key(event.fields).value;
      var e' := Match(e, rule, event, key, now).0;
      var s' := SingleMatch(ss[k], rule, event, key, now).0;
      var ss' := ss[k := s'];
      MatchAgrees(e, ss[k], rule, event, key, now);
      forall i, key' | 0 <= i < |rules|
        ensures Agrees(e', ss'[i], rules[i], key', now)
      {
        if i != k {
          NoCollision(rules, i, k, key', key);
          MatchOthers(e, rule, event, key, now, ss[i], rules[i], key');
        } else if key' != key {
          SameKey(rule.id, key', key);
          MatchOthers(e, rule, event, key, now, ss[k], rule, key');
          SingleOthers(ss[k], rule, event, key, now, e', key');
        }
      }
    } else {
      assert ss[k := ss[k]] == ss;
    }
  }

  lemma NoCollision(rules: seq<Rule>, i: nat, k: nat, key: string, key': string)
    requires SeparateIds(rules) && i < |rules| && k < |rules| && i != k
    ensures rules[i].id != rules[k].id && CooldownKey(rules[i].id, key) != CooldownKey(rules[k].id, key')
  {
    hide CooldownKey;
    assert SeparateId(rules[i].id, rules[k].id) && SeparateId(rules[k].id, rules[i].id);
    if CooldownKey(rules[i].id, key) == CooldownKey(rules[k].id, key') {
      KeysMeet(rules[i].id, key, rules[k].id, key');
    }
  }

  // ---------------------------------------------------------------- pruning

  lemma {:induction false} WindowMinutesOf(rules: seq<Rule>, k: nat)
    requires SeparateIds(rules) && k < |rules|
    ensures WindowMinutesFor(rules, rules[k].id) == rules[k].windowMinutes
    decreases |rules|
  {
    var n := |rules| - 1;
    if k < n {
      assert SeparateId(rules[n].id, rules[k].id);
      WindowMinutesOf(rules[..n], k);
    }
  }

  lemma {:induction false} MaxCooldownBounds(rules: seq<Rule>, k: nat)
    requires k <= |rules|
    ensures MaxCooldown(rules) >= MIN_COOLDOWN_MINUTES
    ensures k < |rules| ==> MaxCooldown(rules) >= EffectiveCooldown(rules[k])
    decreases |rules|
  {
    var n := |rules| - 1;
    if rules != [] {
      MaxCooldownBounds(rules[..n], if k < n then k else n);
    }
  }

  lemma PrunedWindow(windows: Windows, rules: seq<Rule>, now: int, id: string, key: string)
    ensures WindowOf(PruneWindows(windows, rules, now), id, key)
        == Live(WindowOf(windows, id, key), PruneCutoff(rules, id, now))
  {
    hide WindowMinutesFor, Live;
    assert Live([], PruneCutoff(rules, id, now)) == [] by { LiveNothing(PruneCutoff(rules, id, now)); }
    if id in windows {
      var groups := windows[id];
      var pruned := PruneGroups(groups, PruneCutoff(rules, id, now));
      assert WindowIn(pruned, key) == Live(WindowIn(groups, key), PruneCutoff(rules, id, now));
    }
  }

  lemma {:induction false} LiveNothing(c: int)
    ensures Live([], c) == []
  {}

  /** Pruning loses nothing that could still matter. */
  lemma PruneAgrees(e: Engine, s: Single, rules: seq<Rule>, k: nat, key: string, now: int)
    requires SeparateIds(rules) && k < |rules| && Agrees(e, s, rules[k], key, now)
    ensures Agrees(Prune(e, rules, now), s, rules[k], key, now)
  {
    hide Live, WindowMinutesFor, MaxCooldown, CooldownKey, WindowOf;
    var rule := rules[k];
    WindowMinutesOf(rules, k);
    MaxCooldownBounds(rules, k);
    PrunedWindow(e.windows, rules, now, rule.id, key);
    LiveLive(WindowOf(e.windows, rule.id, key), Cutoff(rule, now), Cutoff(rule, now));
    LiveNothing(Cutoff(rule, now));
  }

  lemma PruneRefines(e: Engine, ss: seq<Single>, rules: seq<Rule>, now: int)
    requires SeparateIds(rules) && Refines(e, ss, rules, now)
    ensures Refines(Prune(e, rules, now), ss, rules, now)
  {
    hide Agrees;
    forall i, key | 0 <= i < |rules|
      ensures Agrees(Prune(e, rules, now), ss[i], rules[i], key, now)
    {
      PruneAgrees(e, ss[i], rules, i, key, now);
    }
  }

  lemma CounterRefines(e: Engine, ss: seq<Single>, rules: seq<Rule>, now: int, n: nat)
    requires Refines(e, ss, rules, now)
    ensures Refines(e.(sincePrune := n), ss, rules, now)
  {
    forall i, key | 0 <= i < |rules|
      ensures Agrees(e.(sincePrune := n), ss[i], rules[i], key, now)
    {
      assert Agrees(e, ss[i], rules[i], key, now);
    }
  }

  // ---------------------------------------------------------------- whole runs

  function LastOf(start: int, times: seq<int>): int {
    if times == [] then start else times[|times| - 1]
  }

  lemma {:induction false} RulesRefine(e: Engine, ss: seq<Single>, rules: seq<Rule>, k: nat, event: Event,
                                       times: seq<int>, start: int)
    requires Refines(e, ss, rules, start) && SeparateIds(rules) && k <= |rules|
    requires |times| == |rules| - k && Ascending(start, times)
    ensures var (e', alerts) := EvaluateRules(e, rules[k..], event, times);
            var (rest, alerts') := ProductRules(ss[k..], rules[k..], event, times);
            alerts == alerts' && Refines(e', ss[..k] + rest, rules, LastOf(start, times))
    decreases |times|
  {
    hide Refines, SeparateIds, EvaluateRule, SingleRule;
    if times == [] {
      assert Refines(e, ss, rules, start) && |ss| == |rules| by { RefinesSize(e, ss, rules, start); }
      assert ss[..k] + [] == ss;
    } else {
      RefinesSize(e, ss, rules, start);
      RefinesLater(e, ss, rules, start, times[0]);
      RuleRefines(e, ss, rules, k, event, times[0]);
      var (e1, a) := EvaluateRule(e, rules[k], event, times[0]);
      var (s1, b) := SingleRule(ss[k], rules[k], event, times[0]);
      var ss1 := ss[k := s1];
      RulesRefine(e1, ss1, rules, k + 1, event, times[1..], times[0]);
      assert rules[k..][1..] == rules[k + 1..];
      assert ss[k..][1..] == ss[k + 1..] == ss1[k + 1..];
      var rest := ProductRules(ss1[k + 1..], rules[k + 1..], event, times[1..]).0;
      assert ss1[..k + 1] + rest == ss[..k] + ([s1] + rest);
    }
  }

  lemma RefinesSize(e: Engine, ss: seq<Single>, rules: seq<Rule>, now: int)
    requires Refines(e, ss, rules, now)
    ensures |ss| == |rules|
  {}

  lemma {:induction false} EventRefines(e: Engine, ss: seq<Single>, rules: seq<Rule>, input: Input, start: int)
    requires Refines(e, ss, rules, start) && SeparateIds(rules) && |input.times| == |rules|
    requires start <= input.pruneTime && Ascending(input.pruneTime, input.times)
    ensures |ss| == |rules|
    ensures var (e', alerts) := EvaluateEvent(e, rules, input);
            var (ss', alerts') := ProductRules(ss, rules, input.event, input.times);
            alerts == alerts' && Refines(e', ss', rules, LastTime(input))
  {
    hide Refines, SeparateIds, EvaluateRules, ProductRules, Prune;
    RefinesSize(e, ss, rules, start);
    RefinesLater(e, ss, rules, start, input.pruneTime);
    var counted := e.(sincePrune := e.sincePrune + 1);
    CounterRefines(e, ss, rules, input.pruneTime, e.sincePrune + 1);
    PruneRefines(counted, ss, rules, input.pruneTime);
    CounterRefines(Prune(counted, rules, input.pruneTime), ss, rules, input.pruneTime, 0);
    var ready := if counted.sincePrune >= PRUNE_EVERY
        then Prune(counted, rules, input.pruneTime).(sincePrune := 0) else counted;
    RulesRefine(ready, ss, rules, 0, input.event, input.times, input.pruneTime);
    assert rules[0..] == rules && ss[0..] == ss;
    assert ss[..0] + ProductRules(ss, rules, input.event, input.times).0
        == ProductRules(ss, rules, input.event, input.times).0;
  }

  lemma {:induction false} RunRefines(e: Engine, ss: seq<Single>, rules: seq<Rule>, inputs: seq<Input>, start: int)
    requires Refines(e, ss, rules, start) && SeparateIds(rules) && InputsFor(inputs, rules) && Monotone(inputs, start)
    ensures |ss| == |rules| && Run(e, rules, inputs) == ProductRun(ss, rules, inputs)
    decreases |inputs|
  {
    hide Refines, SeparateIds, EvaluateEvent, ProductRules;
    RefinesSize(e, ss, rules, start);
    if inputs != [] {
      EventRefines(e, ss, rules, inputs[0], start);
      RunRefines(EvaluateEvent(e, rules, inputs[0]).0, ProductRules(ss, rules, inputs[0].event, inputs[0].times).0,
                 rules, inputs[1..], LastTime(inputs[0]));
    }
  }

  /**
    Pruning is invisible: for every rule set whose ids are separate and every stream of events under a clock
    that does not go back, the engine raises the very alerts, in order and in content, that independent
    single-rule engines raise that keep all matches since the last clearing and never prune.
  */
  lemma {:induction false} PruningIsInvisible(rules: seq<Rule>, inputs: seq<Input>, start: int)
    requires SeparateIds(rules) && InputsFor(inputs, rules) && Monotone(inputs, start)
    ensures Run(NEW_ENGINE, rules, inputs) == ProductRun(NewProduct(rules), rules, inputs)
  {
    forall i, key | 0 <= i < |rules|
      ensures Agrees(NEW_ENGINE, NewProduct(rules)[i], rules[i], key, start)
    {
      LiveNothing(Cutoff(rules[i], start));
    }
    RunRefines(NEW_ENGINE, NewProduct(rules), rules, inputs, start);
  }
}
