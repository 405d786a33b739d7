/**
  What becomes of a notification, said of its own fields and the outcome of its attempt: which entries a pass
  delivers, discards and keeps, and which notifications a run delivers and discards.
*/
module RetryOutcomes {
  import opened Wrappers
  import opened Retry
  import opened RetryRuns

  // ---------------------------------------------------------------- one pass

  predicate Young(e: Entry, now: int, cfg: Config) {
    now - e.created <= cfg.maxAgeSeconds * 10_000_000
  }

  predicate Due(e: Entry, now: int, cfg: Config) {
    Young(e, now, cfg) && e.nextRetry <= now
  }

  /** What can become of an entry in a pass, given the outcome of its attempt. */
  datatype Outcome = Delivered | TooOld | LastFailure | Failure | Waits

  predicate Becomes(e: Entry, ok: bool, o: Outcome, now: int, cfg: Config) {
    match o
    case Delivered => Due(e, now, cfg) && ok
    case TooOld => !Young(e, now, cfg)
    case LastFailure => Due(e, now, cfg) && !ok && e.attempts + 1 >= cfg.maxAttempts
    case Failure => Due(e, now, cfg) && !ok && e.attempts + 1 < cfg.maxAttempts
    case Waits => Young(e, now, cfg) && now < e.nextRetry
  }

  predicate EndsIn(e: Entry, ok: bool, ends: set<Outcome>, now: int, cfg: Config) {
    exists o :: o in ends && Becomes(e, ok, o, now, cfg)
  }

  /** The entries that come to one of these ends, in order. */
  function Ending(es: seq<Entry>, oks: seq<bool>, ends: set<Outcome>, now: int, cfg: Config): seq<Entry>
    requires |oks| == |es|
  {
    if es == [] then []
    else
      var n := |es| - 1;
      Ending(es[..n], oks[..n], ends, now, cfg)
      + if EndsIn(es[n], oks[n], ends, now, cfg) then [es[n]] else []
  }

  /** How entries are kept: as they are until they are due, with one attempt more and a later time when they failed. */
  function Kept(es: seq<Entry>, now: int, cfg: Config): seq<Entry> {
    seq(|es|, i requires 0 <= i < |es| =>
      if now < es[i].nextRetry then es[i]
      else es[i].(attempts := es[i].attempts + 1,
                  nextRetry := now + BackoffOf(cfg.backoffSeconds, es[i].attempts + 1) * 10_000_000))
  }

  function AttemptsAt(es: seq<Entry>, now: int): seq<Attempt> {
    seq(|es|, i requires 0 <= i < |es| => Attempt(es[i], es[i].attempts + 1, now))
  }

  /** Each entry comes to exactly one end. */
  lemma OneEnd(e: Entry, ok: bool, now: int, cfg: Config)
    ensures exists o :: Becomes(e, ok, o, now, cfg)
    ensures forall o, o' :: Becomes(e, ok, o, now, cfg) && Becomes(e, ok, o', now, cfg) ==> o == o'
  {
    assert Becomes(e, ok, Delivered, now, cfg) || Becomes(e, ok, TooOld, now, cfg)
           || Becomes(e, ok, LastFailure, now, cfg) || Becomes(e, ok, Failure, now, cfg)
           || Becomes(e, ok, Waits, now, cfg);
  }

  lemma FateIs(e: Entry, ok: bool, now: int, cfg: Config)
    ensures var fate := FateOf(e, now, ok, cfg);
            && (fate.Sent? <==> EndsIn(e, ok, {Delivered}, now, cfg))
            && (fate.AgedOut? || fate.GaveUp? <==> EndsIn(e, ok, {TooOld, LastFailure}, now, cfg))
            && (fate.NotYet? || fate.Again? <==> EndsIn(e, ok, {Failure, Waits}, now, cfg))
            && (Attempted(fate) <==> EndsIn(e, ok, {Delivered, LastFailure, Failure}, now, cfg))
            && Left(e, fate) == if fate.NotYet? || fate.Again? then Kept([e], now, cfg) else []
  {
    hide BackoffOf;
    OneEnd(e, ok, now, cfg);
    var o :| Becomes(e, ok, o, now, cfg);
  }

  /**
    Exactly what a pass does, entry by entry and in order: it delivers what is due and succeeds, discards what is too
    old and what fails for the last time, and keeps the rest; every entry that is due is attempted once.
  */
  lemma {:induction false} PassExactly(es: seq<Entry>, now: int, oks: seq<bool>, cfg: Config)
    requires |oks| == |es|
    ensures var p := PassOver(es, now, oks, cfg);
            && p.delivered == Ids(Ending(es, oks, {Delivered}, now, cfg))
            && p.discarded == Ids(Ending(es, oks, {TooOld, LastFailure}, now, cfg))
            && p.remaining == Kept(Ending(es, oks, {Failure, Waits}, now, cfg), now, cfg)
            && p.attempts == AttemptsAt(Ending(es, oks, {Delivered, LastFailure, Failure}, now, cfg), now)
    decreases |es|
  {
    hide BackoffOf, FateOf, EndsIn, Left, Kept, AttemptsAt, Ids;
    if es == [] {
      NoneKept(now, cfg);
    } else {
      var n := |es| - 1;
      var e, ok := es[n], oks[n];
      PassExactly(es[..n], now, oks[..n], cfg);
      FateIs(e, ok, now, cfg);
      NothingAdded();
      IdsSnoc(Ending(es[..n], oks[..n], {Delivered}, now, cfg), e);
      IdsSnoc(Ending(es[..n], oks[..n], {TooOld, LastFailure}, now, cfg), e);
      KeptSnoc(Ending(es[..n], oks[..n], {Failure, Waits}, now, cfg), e, now, cfg);
      KeptSnoc(Ending(es[..n], oks[..n], {Delivered, LastFailure, Failure}, now, cfg), e, now, cfg);
    }
  }

  lemma NothingAdded()
    ensures forall s: seq<nat> :: s + [] == s
    ensures forall s: seq<Entry> :: s + [] == s
    ensures forall s: seq<Attempt> :: s + [] == s
  {}

  lemma KeptSnoc(es: seq<Entry>, e: Entry, now: int, cfg: Config)
    ensures Kept(es + [e], now, cfg) == Kept(es, now, cfg) + Kept([e], now, cfg)
    ensures AttemptsAt(es + [e], now) == AttemptsAt(es, now) + [Attempt(e, e.attempts + 1, now)]
  {
    hide BackoffOf;
  }

  lemma NoneKept(now: int, cfg: Config)
    ensures Kept([], now, cfg) == [] && AttemptsAt([], now) == [] && Ids([]) == []
  {}

  // ---------------------------------------------------------------- whole runs

  /** Entry i is this notification and comes to one of these ends. */
  predicate EndsHere(es: seq<Entry>, oks: seq<bool>, id: nat, i: int, ends: set<Outcome>, now: int, cfg: Config)
    requires |oks| == |es|
  {
    0 <= i < |es| && es[i].id == id && EndsIn(es[i], oks[i], ends, now, cfg)
  }

  lemma {:induction false} InEnding(es: seq<Entry>, oks: seq<bool>, id: nat, ends: set<Outcome>, now: int, cfg: Config)
    requires |oks| == |es|
    ensures id in Ids(Ending(es, oks, ends, now, cfg)) <==> exists i :: EndsHere(es, oks, id, i, ends, now, cfg)
    decreases |es|
  {
    hide EndsIn, Ids;
    if es == [] {
      NoIds();
    } else {
      var n := |es| - 1;
      InEnding(es[..n], oks[..n], id, ends, now, cfg);
      IdsSnoc(Ending(es[..n], oks[..n], ends, now, cfg), es[n]);
      NothingAdded();
      if i :| EndsHere(es[..n], oks[..n], id, i, ends, now, cfg) {
        assert EndsHere(es, oks, id, i, ends, now, cfg);
      }
      if i :| EndsHere(es, oks, id, i, ends, now, cfg) && i < n {
        assert EndsHere(es[..n], oks[..n], id, i, ends, now, cfg);
      }
      if es[n].id == id && EndsIn(es[n], oks[n], ends, now, cfg) {
        assert EndsHere(es, oks, id, n, ends, now, cfg);
      }
    }
  }

  /** Action j ends a pass in which the notification comes to one of these ends. */
  ghost predicate EndsAt(actions: seq<Action>, cfg: Config, id: nat, j: int, ends: set<Outcome>) {
    && 0 <= j < |actions|
    && var q, a := Exec(actions[..j], cfg), actions[j];
    && Rewrites(q, a)
    && exists i :: EndsHere(q.snapshot.value, a.outcomes, id, i, ends, a.now, cfg)
  }

  /**
    Over whole runs: a notification is delivered exactly if some pass found it due and its attempt succeeded, and
    discarded exactly if some pass found it too old or saw its last attempt fail.
  */
  lemma {:induction false} DeliveredExactly(actions: seq<Action>, cfg: Config, id: nat)
    ensures var q := Exec(actions, cfg);
            && (id in q.delivered <==> exists j :: EndsAt(actions, cfg, id, j, {Delivered}))
            && (id in q.discarded <==> exists j :: EndsAt(actions, cfg, id, j, {TooOld, LastFailure}))
    decreases |actions|
  {
    hide Ids, EndsIn;
    if actions != [] {
      var n := |actions| - 1;
      DeliveredExactly(actions[..n], cfg, id);
      LastStep(Exec(actions[..n], cfg), actions[n], cfg, id);
      EndsEarlier(actions, cfg, id, {Delivered});
      EndsEarlier(actions, cfg, id, {TooOld, LastFailure});
    }
  }

  lemma LastStep(q: Queue, a: Action, cfg: Config, id: nat)
    ensures var q' := Next(q, a, cfg);
            && (id in q'.delivered <==>
                  id in q.delivered
                  || (Rewrites(q, a)
                      && exists i :: EndsHere(q.snapshot.value, a.outcomes, id, i, {Delivered}, a.now, cfg)))
            && (id in q'.discarded <==>
                  id in q.discarded
                  || (Rewrites(q, a)
                      && exists i :: EndsHere(q.snapshot.value, a.outcomes, id, i, {TooOld, LastFailure}, a.now, cfg)))
  {
    hide PassOver, EndsHere, Ids, Ending, EndsIn;
    if Rewrites(q, a) {
      PassExactly(q.snapshot.value, a.now, a.outcomes, cfg);
      InEnding(q.snapshot.value, a.outcomes, id, {Delivered}, a.now, cfg);
      InEnding(q.snapshot.value, a.outcomes, id, {TooOld, LastFailure}, a.now, cfg);
    }
  }

  lemma {:induction false} EndsEarlier(actions: seq<Action>, cfg: Config, id: nat, ends: set<Outcome>)
    requires actions != []
    ensures var n := |actions| - 1;
            var q, a := Exec(actions[..n], cfg), actions[n];
            (exists j :: EndsAt(actions, cfg, id, j, ends)) <==>
            || (exists j :: EndsAt(actions[..n], cfg, id, j, ends))
            || (Rewrites(q, a) && exists i :: EndsHere(q.snapshot.value, a.outcomes, id, i, ends, a.now, cfg))
  {
    hide Exec, EndsHere;
    var n := |actions| - 1;
    if j :| EndsAt(actions[..n], cfg, id, j, ends) {
      assert actions[..n][..j] == actions[..j];
      assert EndsAt(actions, cfg, id, j, ends);
    }
    if j :| EndsAt(actions, cfg, id, j, ends) && j < n {
      assert actions[..n][..j] == actions[..j];
      assert EndsAt(actions[..n], cfg, id, j, ends);
    }
    var q, a := Exec(actions[..n], cfg), actions[n];
    if Rewrites(q, a) && exists i :: EndsHere(q.snapshot.value, a.outcomes, id, i, ends, a.now, cfg) {
      assert EndsAt(actions, cfg, id, n, ends);
    }
  }
}
