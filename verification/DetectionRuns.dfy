/** What whole runs of the detection engine guarantee: spacing of alerts, no double counting, bounded windows. */
module DetectionRuns {
  import opened Wrappers
  import opened Detection
  import opened DetectionRefinement

  // ---------------------------------------------------------------- one rule's share of a run

  function AlertsOf(alerts: seq<Alert>, id: string): seq<Alert> {
    if alerts == [] then []
    else if alerts[0].ruleId == id then [alerts[0]] + AlertsOf(alerts[1..], id)
    else AlertsOf(alerts[1..], id)
  }

  lemma {:induction false} AlertsOfConcat(a: seq<Alert>, b: seq<Alert>, id: string)
    ensures AlertsOf(a + b, id) == AlertsOf(a, id) + AlertsOf(b, id)
  {
    if a == [] {
      assert a + b == b;
    } else {
      assert (a + b)[1..] == a[1..] + b;
      AlertsOfConcat(a[1..], b, id);
    }
  }

  /** The alerts of rule i running on its own. */
  function SingleRun(s: Single, rules: seq<Rule>, i: nat, inputs: seq<Input>): seq<Alert>
    requires i < |rules| && InputsFor(inputs, rules)
    decreases |inputs|
  {
    if inputs == [] then []
    else
      var (s', alert) := SingleRule(s, rules[i], inputs[0].event, inputs[0].times[i]);
      ToSeq(alert) + SingleRun(s', rules, i, inputs[1..])
  }

  lemma AlertRuleId(s: Single, rule: Rule, event: Event, now: int)
    ensures var a := SingleRule(s, rule, event, now).1;
            a.Some? ==> a.value.ruleId == rule.id
  {}

  lemma {:induction false} ProductAlerts(ss: seq<Single>, rules: seq<Rule>, i: nat, event: Event, times: seq<int>)
    requires |ss| == |rules| == |times| && SeparateIds(rules) && i < |rules|
    ensures var (ss', alerts) := ProductRules(ss, rules, event, times);
            var (s', alert) := SingleRule(ss[i], rules[i], event, times[i]);
            ss'[i] == s' && AlertsOf(alerts, rules[i].id) == ToSeq(alert)
    decreases |rules|
  {
    hide SingleRule;
    var id := rules[i].id;
    AlertRuleId(ss[0], rules[0], event, times[0]);
    var first := ToSeq(SingleRule(ss[0], rules[0], event, times[0]).1);
    var (rest', alerts') := ProductRules(ss[1..], rules[1..], event, times[1..]);
    AlertsOfConcat(first, alerts', id);
    if i == 0 {
      NoAlertsOf(ss[1..], rules[1..], event, times[1..], id) by {
        forall j | 0 <= j < |rules[1..]|
          ensures rules[1..][j].id != id
        {
          assert SeparateId(rules[0].id, rules[j + 1].id);
        }
      }
      assert AlertsOf(first, id) == first;
    } else {
      assert SeparateId(rules[0].id, rules[i].id);
      SeparateRest(rules);
      ProductAlerts(ss[1..], rules[1..], i - 1, event, times[1..]);
      assert AlertsOf(first, id) == [];
    }
  }

  lemma SeparateRest(rules: seq<Rule>)
    requires SeparateIds(rules) && rules != []
    ensures SeparateIds(rules[1..])
  {
    forall i, j | 0 <= i < |rules[1..]| && 0 <= j < |rules[1..]| && i != j
      ensures SeparateId(rules[1..][i].id, rules[1..][j].id)
    {
      assert SeparateId(rules[i + 1].id, rules[j + 1].id);
    }
  }

  lemma {:induction false} NoAlertsOf(ss: seq<Single>, rules: seq<Rule>, event: Event, times: seq<int>, id: string)
    requires |ss| == |rules| == |times| && forall j :: 0 <= j < |rules| ==> rules[j].id != id
    ensures AlertsOf(ProductRules(ss, rules, event, times).1, id) == []
    decreases |rules|
  {
    hide SingleRule;
    if rules != [] {
      AlertRuleId(ss[0], rules[0], event, times[0]);
      NoAlertsOf(ss[1..], rules[1..], event, times[1..], id);
      var first := ToSeq(SingleRule(ss[0], rules[0], event, times[0]).1);
      AlertsOfConcat(first, ProductRules(ss[1..], rules[1..], event, times[1..]).1, id);
      assert AlertsOf(first, id) == [];
    }
  }

  lemma {:induction false} ProductRunAlerts(ss: seq<Single>, rules: seq<Rule>, i: nat, inputs: seq<Input>)
    requires |ss| == |rules| && SeparateIds(rules) && i < |rules| && InputsFor(inputs, rules)
    ensures AlertsOf(ProductRun(ss, rules, inputs), rules[i].id) == SingleRun(ss[i], rules, i, inputs)
    decreases |inputs|
  {
    hide SingleRule, SeparateIds, ProductRules;
    if inputs != [] {
      ProductAlerts(ss, rules, i, inputs[0].event, inputs[0].times);
      var (ss', alerts) := ProductRules(ss, rules, inputs[0].event, inputs[0].times);
      ProductRunAlerts(ss', rules, i, inputs[1..]);
      AlertsOfConcat(alerts, ProductRun(ss', rules, inputs[1..]), rules[i].id);
    }
  }

  // ---------------------------------------------------------------- spacing

  /** Events bear increasing numbers, from `n` on. */
  predicate Numbered(inputs: seq<Input>, n: nat) {
    inputs == [] || (inputs[0].event.number >= n && Numbered(inputs[1..], inputs[0].event.number + 1))
  }

  predicate NumbersBelow(w: Window, n: nat) {
    forall o :: o in w ==> o.number < n
  }

  ghost predicate HistoryBelow(s: Single, n: nat) {
    forall key :: NumbersBelow(WindowIn(s.history, key), n)
  }

  lemma {:induction false} LiveIn(w: Window, c: int)
    ensures forall o :: o in Live(w, c) ==> o in w
  {
    if w != [] {
      LiveIn(w[1..], c);
      assert w == [w[0]] + w[1..];
    }
  }

  lemma {:induction false} TimesFrom(start: int, times: seq<int>, i: nat)
    requires Ascending(start, times) && i < |times|
    ensures start <= times[i] <= times[|times| - 1]
    decreases |times|
  {
    if i > 0 {
      TimesFrom(times[0], times[1..], i - 1);
    } else if |times| > 1 {
      TimesFrom(times[0], times[1..], |times| - 2);
    }
  }

  /** An alert that `s` may still raise, at `start` or later, with the next event numbered `n` or more. */
  predicate Possible(a: Alert, s: Single, rule: Rule, start: int, n: nat) {
    && a.at >= start
    && (a.groupKey in s.lastAlert ==> a.at - s.lastAlert[a.groupKey] >= EffectiveCooldown(rule) * TICKS_PER_MINUTE)
    && (forall o :: o in a.matched ==> o in WindowIn(s.history, a.groupKey) || o.number >= n)
  }

  /** What one step does to an alert that is possible afterwards. */
  lemma PossibleBefore(a: Alert, s: Single, rule: Rule, event: Event, now: int, start: int, n: nat)
    requires n <= event.number && start <= now
    requires Possible(a, SingleRule(s, rule, event, now).0, rule, now, event.number + 1)
    ensures Possible(a, s, rule, start, n)
  {
    hide Live, MakeAlert;
  }

  lemma PossibleNow(s: Single, rule: Rule, event: Event, now: int, start: int, n: nat)
    requires n <= event.number && start <= now
    ensures var a := SingleRule(s, rule, event, now).1;
            a.Some? ==> Possible(a.value, s, rule, start, n)
  {
    hide Live, MinTs, MaxTs;
    if Active(rule) && rule.key(event.fields).Some? {
      var h := WindowIn(s.history, rule.key(event.fields).value) + [Occurrence(event.ts, event.number)];
      LiveIn(h, Cutoff(rule, now));
    }
  }

  lemma {:induction false} AllPossible(s: Single, rules: seq<Rule>, i: nat, inputs: seq<Input>, start: int, n: nat)
    requires i < |rules| && InputsFor(inputs, rules) && Monotone(inputs, start) && Numbered(inputs, n)
    ensures forall a :: a in SingleRun(s, rules, i, inputs) ==> Possible(a, s, rules[i], start, n)
    decreases |inputs|
  {
    hide SingleRule, Possible;
    if inputs != [] {
      var event, now := inputs[0].event, inputs[0].times[i];
      TimesFrom(inputs[0].pruneTime, inputs[0].times, i);
      var (s', alert) := SingleRule(s, rules[i], event, now);
      AllPossibleLater(s', rules, i, inputs, now);
      PossibleNow(s, rules[i], event, now, start, n);
      forall a | a in SingleRun(s, rules, i, inputs)
        ensures Possible(a, s, rules[i], start, n)
      {
        if a in SingleRun(s', rules, i, inputs[1..]) {
          PossibleBefore(a, s, rules[i], event, now, start, n);
        }
      }
    }
  }

  lemma {:induction false} AllPossibleLater(s': Single, rules: seq<Rule>, i: nat, inputs: seq<Input>, now: int)
    requires i < |rules| && InputsFor(inputs, rules) && inputs != [] && now == inputs[0].times[i]
    requires Monotone(inputs, inputs[0].pruneTime) && Numbered(inputs, inputs[0].event.number)
    ensures forall a :: a in SingleRun(s', rules, i, inputs[1..]) ==>
        Possible(a, s', rules[i], now, inputs[0].event.number + 1)
    decreases |inputs|, 0
  {
    hide SingleRule;
    TimesFrom(inputs[0].pruneTime, inputs[0].times, i);
    AllPossible(s', rules, i, inputs[1..], LastTime(inputs[0]), inputs[0].event.number + 1);
  }

  const SECOND := 10_000_000  // in ticks

  /**
    Two alerts for one group key: at least the rule's cooldown apart, or its window if it has none, and no event counted
    in both.
  */
  predicate Apart(a: Alert, b: Alert, rule: Rule) {
    a.groupKey == b.groupKey ==>
      && b.at - a.at >= (if rule.cooldownMinutes > 0 then rule.cooldownMinutes else rule.windowMinutes) * 60 * SECOND
      && forall o, o' :: o in a.matched && o' in b.matched ==> o.number < o'.number
  }

  predicate AllApart(alerts: seq<Alert>, rule: Rule) {
    forall p, q :: 0 <= p < q < |alerts| ==> Apart(alerts[p], alerts[q], rule)
  }

  lemma HistoryStays(s: Single, rule: Rule, event: Event, now: int, n: nat)
    requires HistoryBelow(s, n) && n <= event.number
    ensures HistoryBelow(SingleRule(s, rule, event, now).0, event.number + 1)
    ensures var a := SingleRule(s, rule, event, now).1;
            a.Some? ==> NumbersBelow(a.value.matched, event.number + 1)
  {
    hide Live, MinTs, MaxTs;
    if Active(rule) && rule.key(event.fields).Some? {
      var key := rule.key(event.fields).value;
      assert NumbersBelow(WindowIn(s.history, key), n);
      var h := WindowIn(s.history, key) + [Occurrence(event.ts, event.number)];
      LiveIn(h, Cutoff(rule, now));
      var s' := SingleRule(s, rule, event, now).0;
      forall k
        ensures NumbersBelow(WindowIn(s'.history, k), event.number + 1)
      {
        assert NumbersBelow(WindowIn(s.history, k), n);
      }
    } else {
      forall k
        ensures NumbersBelow(WindowIn(s.history, k), event.number + 1)
      {
        assert NumbersBelow(WindowIn(s.history, k), n);
      }
    }
  }

  lemma ApartFromFirst(s: Single, rule: Rule, event: Event, now: int, b: Alert, n: nat)
    requires HistoryBelow(s, n) && n <= event.number && SingleRule(s, rule, event, now).1.Some?
    requires Possible(b, SingleRule(s, rule, event, now).0, rule, now, event.number + 1)
    ensures Apart(SingleRule(s, rule, event, now).1.value, b, rule)
  {
    hide Live, HistoryBelow, NumbersBelow, MinTs, MaxTs;
    HistoryStays(s, rule, event, now, n);
    var a := SingleRule(s, rule, event, now).1.value;
    Below(a.matched, event.number + 1);
  }

  lemma Below(w: Window, n: nat)
    requires NumbersBelow(w, n)
    ensures forall o :: o in w ==> o.number < n
  {}

  lemma {:induction false} SingleSpaced(s: Single, rules: seq<Rule>, i: nat, inputs: seq<Input>, start: int, n: nat)
    requires i < |rules| && InputsFor(inputs, rules) && Monotone(inputs, start) && Numbered(inputs, n)
        && HistoryBelow(s, n)
    ensures AllApart(SingleRun(s, rules, i, inputs), rules[i])
    decreases |inputs|
  {
    hide SingleRule, Possible, Apart, HistoryBelow;
    if inputs != [] {
      var event, now := inputs[0].event, inputs[0].times[i];
      var (s', alert) := SingleRule(s, rules[i], event, now);
      HistoryStays(s, rules[i], event, now, n);
      AllPossibleLater(s', rules, i, inputs, now);
      SingleSpaced(s', rules, i, inputs[1..], LastTime(inputs[0]), event.number + 1);
      var rest := SingleRun(s', rules, i, inputs[1..]);
      var all := SingleRun(s, rules, i, inputs);
      assert all == ToSeq(alert) + rest;
      forall p, q | 0 <= p < q < |all|
        ensures Apart(all[p], all[q], rules[i])
      {
        if alert.Some? && p == 0 {
          assert all[q] == rest[q - 1] && rest[q - 1] in rest;
          ApartFromFirst(s, rules[i], event, now, all[q], n);
          assert all[0] == alert.value;
        } else {
          var k := |ToSeq(alert)|;
          assert all[p] == rest[p - k] && all[q] == rest[q - k];
          assert Apart(rest[p - k], rest[q - k], rules[i]);
        }
      }
    }
  }

  /**
    Cooldown over whole runs, wherever the prune passes fall: any two alerts the engine raises for one rule and one
    group key are at least the rule's cooldown apart (its window, if it has none), and no event is counted in both.
  */
  lemma {:induction false} AlertsAreSpaced(rules: seq<Rule>, i: nat, inputs: seq<Input>, start: int, p: nat, q: nat)
    requires SeparateIds(rules) && InputsFor(inputs, rules) && Monotone(inputs, start) && Numbered(inputs, 0)
    requires i < |rules| && p < q < |AlertsOf(Run(NEW_ENGINE, rules, inputs), rules[i].id)|
    ensures var alerts := AlertsOf(Run(NEW_ENGINE, rules, inputs), rules[i].id);
            Apart(alerts[p], alerts[q], rules[i])
  {
    hide Apart;
    PruningIsInvisible(rules, inputs, start);
    ProductRunAlerts(NewProduct(rules), rules, i, inputs);
    SingleSpaced(NEW_SINGLE, rules, i, inputs, start, 0);
  }

  // ---------------------------------------------------------------- bounded windows

  function RunState(e: Engine, rules: seq<Rule>, inputs: seq<Input>): Engine
    requires InputsFor(inputs, rules)
    decreases |inputs|
  {
    if inputs == [] then e else RunState(EvaluateEvent(e, rules, inputs[0]).0, rules, inputs[1..])
  }

  function Bound(rule: Rule): nat {
    if rule.threshold <= 1 then 1 else rule.threshold
  }

  ghost predicate Bounded(e: Engine, rules: seq<Rule>) {
    forall k, key :: 0 <= k < |rules| ==> |WindowOf(e.windows, rules[k].id, key)| < Bound(rules[k])
  }

  lemma {:induction false} LiveShorter(w: Window, c: int)
    ensures |Live(w, c)| <= |w|
  {
    if w != [] {
      LiveShorter(w[1..], c);
    }
  }

  lemma MatchBounded(e: Engine, rules: seq<Rule>, k: nat, event: Event, key: string, now: int)
    requires Bounded(e, rules) && SeparateIds(rules) && k < |rules|
    ensures Bounded(Match(e, rules[k], event, key, now).0, rules)
  {
    hide Live, MakeAlert, CooldownKey;
    var e' := Match(e, rules[k], event, key, now).0;
    LiveShorter(WindowOf(e.windows, rules[k].id, key) + [Occurrence(event.ts, event.number)], Cutoff(rules[k], now));
    forall i, key' | 0 <= i < |rules|
      ensures |WindowOf(e'.windows, rules[i].id, key')| < Bound(rules[i])
    {
      assert |WindowOf(e.windows, rules[i].id, key')| < Bound(rules[i]);
      if i != k {
        assert SeparateId(rules[i].id, rules[k].id);
      }
    }
  }

  lemma {:induction false} RulesBounded(e: Engine, rules: seq<Rule>, k: nat, event: Event, times: seq<int>)
    requires Bounded(e, rules) && SeparateIds(rules) && k <= |rules| && |times| == |rules| - k
    ensures Bounded(EvaluateRules(e, rules[k..], event, times).0, rules)
    decreases |times|
  {
    hide Bounded, SeparateIds, Match;
    if times != [] {
      var e1 := EvaluateRule(e, rules[k], event, times[0]).0;
      if Active(rules[k]) && rules[k].key(event.fields).Some? {
        MatchBounded(e, rules, k, event, rules[k].key(event.fields).value, times[0]);
      }
      assert rules[k..][1..] == rules[k + 1..];
      RulesBounded(e1, rules, k + 1, event, times[1..]);
    }
  }

  lemma PruneBounded(e: Engine, rules: seq<Rule>, now: int, n: nat)
    requires Bounded(e, rules)
    ensures Bounded(Prune(e, rules, now).(sincePrune := n), rules)
  {
    hide Live, WindowOf, WindowMinutesFor;
    forall k, key | 0 <= k < |rules|
      ensures |WindowOf(Prune(e, rules, now).windows, rules[k].id, key)| < Bound(rules[k])
    {
      PrunedWindow(e.windows, rules, now, rules[k].id, key);
      LiveShorter(WindowOf(e.windows, rules[k].id, key), PruneCutoff(rules, rules[k].id, now));
      assert |WindowOf(e.windows, rules[k].id, key)| < Bound(rules[k]);
    }
  }

  lemma EventBounded(e: Engine, rules: seq<Rule>, input: Input)
    requires Bounded(e, rules) && SeparateIds(rules) && |input.times| == |rules|
    ensures Bounded(EvaluateEvent(e, rules, input).0, rules)
  {
    hide SeparateIds, EvaluateRules, Prune;
    var counted := e.(sincePrune := e.sincePrune + 1);
    assert Bounded(counted, rules) by { SameWindows(e, counted, rules); }
    PruneBounded(counted, rules, input.pruneTime, 0);
    var ready := if counted.sincePrune >= PRUNE_EVERY
        then Prune(counted, rules, input.pruneTime).(sincePrune := 0) else counted;
    assert rules[0..] == rules;
    RulesBounded(ready, rules, 0, input.event, input.times);
  }

  lemma SameWindows(e: Engine, e': Engine, rules: seq<Rule>)
    requires Bounded(e, rules) && e'.windows == e.windows
    ensures Bounded(e', rules)
  {
    forall k, key | 0 <= k < |rules|
      ensures |WindowOf(e'.windows, rules[k].id, key)| < Bound(rules[k])
    {
      assert |WindowOf(e.windows, rules[k].id, key)| < Bound(rules[k]);
    }
  }

  /** Memory is bounded: between events every window is shorter than its rule's threshold. */
  lemma {:induction false} WindowsStayBounded(e: Engine, rules: seq<Rule>, inputs: seq<Input>)
    requires Bounded(e, rules) && SeparateIds(rules) && InputsFor(inputs, rules)
    ensures Bounded(RunState(e, rules, inputs), rules)
    decreases |inputs|
  {
    hide Bounded, SeparateIds, EvaluateEvent;
    if inputs != [] {
      EventBounded(e, rules, inputs[0]);
      WindowsStayBounded(EvaluateEvent(e, rules, inputs[0]).0, rules, inputs[1..]);
    }
  }

  // ---------------------------------------------------------------- why ids must be separate

  /** Two rules that fire on every event, for the given keys. */
  function TwoAlways(a: string, k: string, b: string, k': string): seq<Rule> {
    [Rule(a, true, true, 1, 1, 0, _ => Some(k)), Rule(b, true, true, 1, 1, 0, _ => Some(k'))]
  }

  /** With a shared cooldown entry the second rule's alert is swallowed by the first one's cooldown. */
  lemma {:induction false} CollisionSwallowsAlert(a: string, k: string, b: string, k': string, event: Event, now: int)
    requires CooldownKey(a, k) == CooldownKey(b, k')
    ensures var rules := TwoAlways(a, k, b, k');
            var inputs := [Input(event, now, [now, now])];
            && Monotone(inputs, now) && InputsFor(inputs, rules)
            && |Run(NEW_ENGINE, rules, inputs)| == 1
            && |ProductRun(NewProduct(rules), rules, inputs)| == 2
  {
    hide MakeAlert, EvaluateRules, ProductRules, CooldownKey;
    var rules := TwoAlways(a, k, b, k');
    var times := [now, now];
    var inputs := [Input(event, now, times)];
    assert times[1..] == [now] && Ascending(now, [now][1..]) && Ascending(now, [now]) && Ascending(now, times);
    assert inputs[1..] == [];
    var e0 := NEW_ENGINE.(sincePrune := 1);
    var (e1, first) := EvaluateRule(e0, rules[0], event, now);
    assert first.Some? && e1.lastAlert == map[CooldownKey(a, k) := now];
    var (e2, second) := EvaluateRule(e1, rules[1], event, now);
    assert second.None?;
    TwoRules(e0, rules, event, now);
    var ss := NewProduct(rules);
    assert SingleRule(ss[0], rules[0], event, now).1.Some? && SingleRule(ss[1], rules[1], event, now).1.Some?;
    TwoSingles(ss, rules, event, now);
  }

  /** The rule forms only keys that a field can give. */
  ghost predicate Keyed(rule: Rule) {
    forall fields :: rule.key(fields).Some? ==> IsKey(rule.key(fields).value)
  }

  /** Whatever two rules with these ids do, the engine emits what independent engines emit. */
  ghost predicate AlwaysAgree(a: string, b: string) {
    forall rules: seq<Rule>, inputs: seq<Input>, start: int ::
      |rules| == 2 && rules[0].id == a && rules[1].id == b && Keyed(rules[0]) && Keyed(rules[1])
      && InputsFor(inputs, rules) && Monotone(inputs, start) ==>
        Run(NEW_ENGINE, rules, inputs) == ProductRun(NewProduct(rules), rules, inputs)
  }

  /** Two rules never disturb each other exactly if their ids are separate, in either order. */
  lemma {:induction false} SeparateIdsNeeded(a: string, b: string, event: Event)
    ensures AlwaysAgree(a, b) <==> SeparateId(a, b) && SeparateId(b, a)
  {
    hide Run, ProductRun, NewProduct, CooldownKey, Monotone, IsKey;
    if SeparateId(a, b) && SeparateId(b, a) {
      forall rules: seq<Rule>, inputs: seq<Input>, start: int |
        |rules| == 2 && rules[0].id == a && rules[1].id == b && Keyed(rules[0]) && Keyed(rules[1])
        && InputsFor(inputs, rules) && Monotone(inputs, start)
        ensures Run(NEW_ENGINE, rules, inputs) == ProductRun(NewProduct(rules), rules, inputs)
      {
        PruningIsInvisible(rules, inputs, start);
      }
    } else {
      CooldownKeysCollide(a, b);
      var k, k' :| IsKey(k) && IsKey(k') && CooldownKey(a, k) == CooldownKey(b, k');
      CollisionSwallowsAlert(a, k, b, k', event, 0);
      assert Keyed(TwoAlways(a, k, b, k')[0]) && Keyed(TwoAlways(a, k, b, k')[1]);
      var rules, inputs := TwoAlways(a, k, b, k'), [Input(event, 0, [0, 0])];
      assert |Run(NEW_ENGINE, rules, inputs)| != |ProductRun(NewProduct(rules), rules, inputs)|;
    }
  }

  lemma {:induction false} TwoRules(e: Engine, rules: seq<Rule>, event: Event, now: int)
    requires |rules| == 2
    ensures var (e1, first) := EvaluateRule(e, rules[0], event, now);
            EvaluateRules(e, rules, event, [now, now]).1
                == ToSeq(first) + ToSeq(EvaluateRule(e1, rules[1], event, now).1)
  {
    hide EvaluateRule;
    var (e1, first) := EvaluateRule(e, rules[0], event, now);
    var (e2, second) := EvaluateRule(e1, rules[1], event, now);
    assert [now, now][1..] == [now] && [now][1..] == [];
    assert rules[1..] == [rules[1]] && [rules[1]][1..] == [];
    assert EvaluateRules(e2, [], event, []) == (e2, []);
    assert EvaluateRules(e1, [rules[1]], event, [now]).1 == ToSeq(second) + [];
    assert ToSeq(second) + [] == ToSeq(second);
  }

  lemma {:induction false} TwoSingles(ss: seq<Single>, rules: seq<Rule>, event: Event, now: int)
    requires |rules| == |ss| == 2
    ensures ProductRules(ss, rules, event, [now, now]).1 ==
            ToSeq(SingleRule(ss[0], rules[0], event, now).1) + ToSeq(SingleRule(ss[1], rules[1], event, now).1)
  {
    hide SingleRule;
    var second := SingleRule(ss[1], rules[1], event, now).1;
    assert [now, now][1..] == [now] && [now][1..] == [];
    assert rules[1..] == [rules[1]] && [rules[1]][1..] == [];
    assert ss[1..] == [ss[1]] && [ss[1]][1..] == [];
    assert ProductRules([], [], event, []) == ([], []);
    assert ProductRules([ss[1]], [rules[1]], event, [now]).1 == ToSeq(second) + [];
    assert ToSeq(second) + [] == ToSeq(second);
  }

  // ---------------------------------------------------------------- an event that is evaluated again

  /** The same event evaluated n times. */
  function Again(event: Event, now: int, n: nat): (inputs: seq<Input>)
    ensures |inputs| == n && forall i :: 0 <= i < n ==> |inputs[i].times| == 1
  {
    seq(n, _ => Input(event, now, [now]))
  }

  /** Its occurrences in a window. */
  function Copies(event: Event, n: nat): Window {
    seq(n, _ => Occurrence(event.ts, event.number))
  }

  lemma {:induction false} CopiesLive(event: Event, n: nat, cutoff: int)
    requires event.ts >= cutoff
    ensures Live(Copies(event, n), cutoff) == Copies(event, n)
  {
    if n > 0 {
      CopiesLive(event, n - 1, cutoff);
      assert Copies(event, n)[1..] == Copies(event, n - 1);
      assert [Copies(event, n)[0]] + Copies(event, n - 1) == Copies(event, n);
    }
  }

  lemma {:induction false} OneSingle(s: Single, rule: Rule, event: Event, now: int)
    ensures ProductRules([s], [rule], event, [now]) ==
            ([SingleRule(s, rule, event, now).0], ToSeq(SingleRule(s, rule, event, now).1))
  {
    hide SingleRule;
    var (s', a) := SingleRule(s, rule, event, now);
    assert [s][1..] == [] && [rule][1..] == [] && [now][1..] == [];
    assert ProductRules([], [], event, []) == ([], []);
    assert ToSeq(a) + [] == ToSeq(a) && [s'] + [] == [s'];
  }

  /** After j evaluations of the event, m more fire one alert if they make up the threshold, none if they do not. */
  lemma {:induction false} CopiesFire(s: Single, rule: Rule, event: Event, now: int, j: nat, m: nat)
    requires Active(rule) && rule.threshold >= 2 && j < rule.threshold && j + m <= rule.threshold
    requires rule.key(event.fields).Some? && event.ts >= Cutoff(rule, now)
    requires WindowIn(s.history, rule.key(event.fields).value) == Copies(event, j) && s.lastAlert == map[]
    ensures ProductRun([s], [rule], Again(event, now, m)) ==
            if j + m < rule.threshold then []
            else [MakeAlert(rule, rule.key(event.fields).value, now, Copies(event, rule.threshold))]
    decreases m
  {
    hide Live, MakeAlert;
    if m > 0 {
      var inputs := Again(event, now, m);
      assert inputs[1..] == Again(event, now, m - 1);
      assert Copies(event, j) + [Occurrence(event.ts, event.number)] == Copies(event, j + 1);
      CopiesLive(event, j + 1, Cutoff(rule, now));
      OneSingle(s, rule, event, now);
      var (s', a) := SingleRule(s, rule, event, now);
      if j + 1 < rule.threshold {
        CopiesFire(s', rule, event, now, j + 1, m - 1);
        assert [] + ProductRun([s'], [rule], inputs[1..]) == ProductRun([s'], [rule], inputs[1..]);
      } else {
        assert inputs[1..] == [] && ProductRun([s'], [rule], []) == [];
        assert ToSeq(a) + [] == ToSeq(a);
      }
    }
  }

  lemma {:induction false} AgainMonotone(event: Event, now: int, n: nat)
    ensures Monotone(Again(event, now, n), now)
  {
    if n > 0 {
      assert Again(event, now, n)[1..] == Again(event, now, n - 1);
      assert [now][1..] == [];
      AgainMonotone(event, now, n - 1);
    }
  }

  /**
    One recent event reaches any threshold alone when it is evaluated that often: the alert counts it every time.
    Evaluated less often it fires nothing.
  */
  lemma {:induction false} RetriesFire(rule: Rule, event: Event, now: int, n: nat)
    requires Active(rule) && 2 <= rule.threshold && n <= rule.threshold
    requires rule.key(event.fields).Some? && event.ts >= Cutoff(rule, now)
    ensures var alerts := Run(NEW_ENGINE, [rule], Again(event, now, n));
            if n < rule.threshold then alerts == []
            else
              && |alerts| == 1 && alerts[0].eventCount == n && alerts[0].ruleId == rule.id
              && forall o :: o in alerts[0].matched ==> o.number == event.number
  {
    hide ProductRun, Run, Monotone, MinTs, MaxTs;
    AgainMonotone(event, now, n);
    PruningIsInvisible([rule], Again(event, now, n), now);
    assert NewProduct([rule]) == [NEW_SINGLE];
    assert Copies(event, 0) == [];
    CopiesFire(NEW_SINGLE, rule, event, now, 0, n);
  }
}
