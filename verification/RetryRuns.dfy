/**
  The retry queue over time: where every notification is, when attempts are made, and exactly which
  notifications are overwritten because they were enqueued while a pass was running.
*/
module RetryRuns {
  import opened Wrappers

  import opened Powers
  import opened Retry

  /** `snapshot` holds what the pass in progress has read; the other sequences list notifications by id. */
  datatype Queue = Queue(file: seq<Entry>, snapshot: Option<seq<Entry>>, enqueued: seq<nat>, delivered: seq<nat>,
                         discarded: seq<nat>, overwritten: seq<nat>, attempts: seq<Attempt>)

  const EMPTY := Queue([], None, [], [], [], [], [])

  datatype Action =
    | Enqueue(id: nat, t1: int, t2: int)
    | Begin                                   // a pass reads the file
    | End(now: int, outcomes: seq<bool>)      // it has tried what was due, and rewrites the file

  function NewEntry(id: nat, t1: int, t2: int, cfg: Config): Entry {
    Entry(id, 0, t1 + cfg.backoffSeconds * SECOND, t2, t1)
  }

  /** A pass that read a non-empty file is running. */
  predicate Reading(q: Queue) {
    q.snapshot.Some? && q.snapshot.value != []
  }

  /** The action adds this notification to the file. */
  predicate Adds(a: Action, id: nat) {
    a.Enqueue? && a.id == id && a.t1 <= a.t2
  }

  /** The action rewrites the file. */
  predicate Rewrites(q: Queue, a: Action) {
    a.End? && Reading(q) && |a.outcomes| == |q.snapshot.value|
  }

  function Next(q: Queue, a: Action, cfg: Config): Queue {
    match a
    case Enqueue(id, t1, t2) =>
      if t1 > t2 then q
      else q.(file := q.file + [NewEntry(id, t1, t2, cfg)], enqueued := q.enqueued + [id])
    case Begin => if q.snapshot.Some? then q else q.(snapshot := Some(q.file))
    case End(now, outcomes) =>
      if Rewrites(q, a) then
        var p := PassOver(q.snapshot.value, now, outcomes, cfg);
        q.(file := p.remaining, snapshot := None, delivered := q.delivered + p.delivered,
           discarded := q.discarded + p.discarded, attempts := q.attempts + p.attempts,
           overwritten := q.overwritten + Ids(Unseen(q)))
      else if Reading(q) then q else q.(snapshot := None)
  }

  /** What was added to the file since the running pass read it. */
  function Unseen(q: Queue): seq<Entry> {
    if q.snapshot.Some? && |q.snapshot.value| <= |q.file| then q.file[|q.snapshot.value|..] else []
  }

  function Exec(actions: seq<Action>, cfg: Config): Queue {
    if actions == [] then EMPTY
    else Next(Exec(actions[..|actions| - 1], cfg), actions[|actions| - 1], cfg)
  }

  // ---------------------------------------------------------------- conservation

  /** Every enqueued notification is delivered, discarded, queued or overwritten, as often as it was enqueued. */
  predicate Balanced(q: Queue) {
    && multiset(q.enqueued) ==
       multiset(q.delivered) + multiset(q.discarded) + multiset(Ids(q.file)) + multiset(q.overwritten)
    && (q.snapshot.Some? ==> q.snapshot.value <= q.file)
  }

  lemma NextBalanced(q: Queue, a: Action, cfg: Config)
    requires Balanced(q)
    ensures Balanced(Next(q, a, cfg))
  {
    hide PassOver, Ids;
    match a
    case Enqueue(id, t1, t2) =>
      IdsSnoc(q.file, NewEntry(id, t1, t2, cfg));
    case Begin =>
    case End(now, outcomes) =>
      if Rewrites(q, a) {
        PassConserves(q.snapshot.value, now, outcomes, cfg);
        assert q.file == q.snapshot.value + Unseen(q);
        IdsOfConcat(q.snapshot.value, Unseen(q));
      }
  }

  /** Accounting: this holds at every moment of every run. */
  lemma {:induction false} Accounting(actions: seq<Action>, cfg: Config)
    ensures Balanced(Exec(actions, cfg))
  {
    hide Balanced, Next;
    if actions == [] {
      AtStart();
    } else {
      var n := |actions| - 1;
      Accounting(actions[..n], cfg);
      NextBalanced(Exec(actions[..n], cfg), actions[n], cfg);
    }
  }

  lemma AtStart()
    ensures Balanced(EMPTY) && Scheduled(EMPTY, Config(0, 0, 0))
    ensures forall cfg :: Scheduled(EMPTY, cfg)
  {
    NoIds();
  }

  function Count(b: bool): nat {
    if b then 1 else 0
  }

  /** A notification that was enqueued once is in exactly one place. */
  lemma {:induction false} ExactlyOnePlace(actions: seq<Action>, cfg: Config, id: nat)
    requires multiset(Exec(actions, cfg).enqueued)[id] == 1
    ensures var q := Exec(actions, cfg);
            Count(id in q.delivered) + Count(id in q.discarded) + Count(id in Ids(q.file))
                + Count(id in q.overwritten) == 1
  {
    hide Exec, Ids;
    Accounting(actions, cfg);
    var q := Exec(actions, cfg);
    assert id in q.delivered <==> multiset(q.delivered)[id] > 0;
    assert id in q.discarded <==> multiset(q.discarded)[id] > 0;
    assert id in Ids(q.file) <==> multiset(Ids(q.file))[id] > 0;
    assert id in q.overwritten <==> multiset(q.overwritten)[id] > 0;
  }

  // ---------------------------------------------------------------- what is overwritten

  /** The notification is in the file, but the running pass has not read it. */
  predicate Doomed(q: Queue, id: nat) {
    Reading(q) && id in Ids(Unseen(q))
  }

  lemma NextDoomed(q: Queue, a: Action, cfg: Config, id: nat)
    requires Balanced(q)
    ensures Doomed(Next(q, a, cfg), id) <==> (Adds(a, id) && Reading(q)) || (Doomed(q, id) && !Rewrites(q, a))
    ensures id in Next(q, a, cfg).overwritten <==> id in q.overwritten || (Rewrites(q, a) && Doomed(q, id))
  {
    hide PassOver, Ids;
    NoIds();
    match a
    case Enqueue(id', t1, t2) =>
      if t1 <= t2 && q.snapshot.Some? {
        var e := NewEntry(id', t1, t2, cfg);
        assert Unseen(Next(q, a, cfg)) == Unseen(q) + [e];
        IdsSnoc(Unseen(q), e);
      }
    case Begin =>
      if q.snapshot.None? {
        assert Unseen(Next(q, a, cfg)) == [];
      }
    case End(_, _) =>
  }

  /** Step i enqueues the notification while a pass is running, and no later step before n rewrites the file. */
  predicate EnqueuedDuringPass(actions: seq<Action>, cfg: Config, id: nat, i: int, n: int) {
    && 0 <= i < n <= |actions|
    && Adds(actions[i], id) && Reading(Exec(actions[..i], cfg))
    && forall k :: i < k < n ==> !Rewrites(Exec(actions[..k], cfg), actions[k])
  }

  lemma {:induction false} DoomedExactly(actions: seq<Action>, cfg: Config, id: nat, n: nat)
    requires n <= |actions|
    ensures Doomed(Exec(actions[..n], cfg), id) <==> exists i :: EnqueuedDuringPass(actions, cfg, id, i, n)
    decreases n
  {
    hide Doomed, Adds, Reading, Rewrites, Next, EnqueuedDuringPass;
    if n == 0 {
      NothingDoomed(id);
      NotBeforeStart(actions, cfg, id);
    } else {
      var q, a := Exec(actions[..n - 1], cfg), actions[n - 1];
      assert actions[..n][..n - 1] == actions[..n - 1];
      DoomedExactly(actions, cfg, id, n - 1);
      Accounting(actions[..n - 1], cfg);
      NextDoomed(q, a, cfg, id);
      OneStepLonger(actions, cfg, id, n - 1, n);
    }
  }

  lemma NotBeforeStart(actions: seq<Action>, cfg: Config, id: nat)
    ensures !exists i :: EnqueuedDuringPass(actions, cfg, id, i, 0)
  {}

  lemma {:induction false} OneStepLonger(actions: seq<Action>, cfg: Config, id: nat, m: nat, n: nat)
    requires n == m + 1 <= |actions|
    ensures var q, a := Exec(actions[..m], cfg), actions[m];
            (exists i :: EnqueuedDuringPass(actions, cfg, id, i, n)) <==>
            (Adds(a, id) && Reading(q))
            || ((exists i :: EnqueuedDuringPass(actions, cfg, id, i, m)) && !Rewrites(q, a))
  {
    hide Exec, Adds, Reading, Rewrites;
    var q, a := Exec(actions[..m], cfg), actions[m];
    if Adds(a, id) && Reading(q) {
      assert EnqueuedDuringPass(actions, cfg, id, m, n);
    }
    if (exists i :: EnqueuedDuringPass(actions, cfg, id, i, m)) && !Rewrites(q, a) {
      var i :| EnqueuedDuringPass(actions, cfg, id, i, m);
      assert EnqueuedDuringPass(actions, cfg, id, i, n);
    }
    if i :| EnqueuedDuringPass(actions, cfg, id, i, n) && i < m {
      assert EnqueuedDuringPass(actions, cfg, id, i, m);
    }
  }

  lemma NothingDoomed(id: nat)
    ensures !Doomed(EMPTY, id)
  {}

  /** Step i enqueues the notification during a pass, and step j is the end of that pass. */
  predicate Overwrites(actions: seq<Action>, cfg: Config, id: nat, i: int, j: int) {
    && j < |actions| && EnqueuedDuringPass(actions, cfg, id, i, j)
    && Rewrites(Exec(actions[..j], cfg), actions[j])
  }

  /**
    A notification is overwritten exactly if it was enqueued while a pass that had read a non-empty file was
    running, and that pass then rewrote the file.
  */
  lemma {:induction false} OverwrittenExactly(actions: seq<Action>, cfg: Config, id: nat, n: nat)
    requires n <= |actions|
    ensures id in Exec(actions[..n], cfg).overwritten <==> exists i, j :: j < n && Overwrites(actions, cfg, id, i, j)
    decreases n
  {
    hide Doomed, Rewrites, Next, EnqueuedDuringPass;
    if n == 0 {
      assert Exec(actions[..0], cfg) == EMPTY;
      assert !exists i, j :: j < 0 && Overwrites(actions, cfg, id, i, j) by { NoneBefore(actions, cfg, id); }
    } else {
      var q, a := Exec(actions[..n - 1], cfg), actions[n - 1];
      assert actions[..n][..n - 1] == actions[..n - 1];
      OverwrittenExactly(actions, cfg, id, n - 1);
      DoomedExactly(actions, cfg, id, n - 1);
      Accounting(actions[..n - 1], cfg);
      NextDoomed(q, a, cfg, id);
      if Rewrites(q, a) && Doomed(q, id) {
        var i :| EnqueuedDuringPass(actions, cfg, id, i, n - 1);
        assert Overwrites(actions, cfg, id, i, n - 1);
      }
      if i, j :| j < n && Overwrites(actions, cfg, id, i, j) && j >= n - 1 {
        assert EnqueuedDuringPass(actions, cfg, id, i, n - 1);
      }
    }
  }

  lemma NoneBefore(actions: seq<Action>, cfg: Config, id: nat)
    ensures !exists i, j :: j < 0 && Overwrites(actions, cfg, id, i, j)
  {}

  /** So a run overwrites nothing exactly if no pass rewrites the file after something was enqueued during it. */
  lemma {:induction false} NothingOverwrittenExactly(actions: seq<Action>, cfg: Config)
    ensures Exec(actions, cfg).overwritten == [] <==> !exists i, j, id: nat :: Overwrites(actions, cfg, id, i, j)
  {
    hide Exec, Overwrites;
    var lost := Exec(actions, cfg).overwritten;
    assert actions[..|actions|] == actions;
    if lost != [] {
      assert lost[0] in lost;
      OverwrittenExactly(actions, cfg, lost[0], |actions|);
    }
    if i, j, id: nat :| Overwrites(actions, cfg, id, i, j) {
      InRange(actions, cfg, id, i, j);
      OverwrittenExactly(actions, cfg, id, |actions|);
    }
  }

  lemma InRange(actions: seq<Action>, cfg: Config, id: nat, i: int, j: int)
    requires Overwrites(actions, cfg, id, i, j)
    ensures j < |actions|
  {}

  /** It does happen: the second notification is neither delivered nor queued. */
  lemma {:induction false} OverwritingHappens(cfg: Config, now: int)
    ensures Exec([Enqueue(1, now, now), Begin, Enqueue(2, now, now), End(now, [true])], cfg).overwritten == [2]
  {
    hide PassOver;
    var actions := [Enqueue(1, now, now), Begin, Enqueue(2, now, now), End(now, [true])];
    assert actions[..3][..2] == actions[..2] && actions[..2][..1] == actions[..1] && actions[..1][..0] == [];
    var e1, e2 := NewEntry(1, now, now, cfg), NewEntry(2, now, now, cfg);
    assert Exec(actions[..1], cfg) == EMPTY.(file := [e1], enqueued := [1]);
    assert Exec(actions[..2], cfg).file == [e1] && Exec(actions[..2], cfg).snapshot == Some([e1]);
    var q := Exec(actions[..3], cfg);
    assert q.file == [e1, e2] && q.snapshot == Some([e1]) && q.overwritten == [];
    assert Unseen(q) == [e2] && Ids([e2]) == [2];
  }

  // ---------------------------------------------------------------- schedule

  /** The earliest time of the n-th attempt. */
  function Earliest(first: int, n: nat, cfg: Config): int {
    first + Waited(cfg.backoffSeconds, n) * SECOND
  }

  predicate OnSchedule(e: Entry, cfg: Config) {
    && (e.attempts == 0 || e.attempts < cfg.maxAttempts)
    && e.nextRetry >= Earliest(e.first, e.attempts + 1, cfg)
    && e.first <= e.created
  }

  predicate AttemptOk(a: Attempt, cfg: Config) {
    && a.n == a.entry.attempts + 1
    && (cfg.maxAttempts >= 1 ==> a.n <= cfg.maxAttempts)
    && a.at >= Earliest(a.entry.first, a.n, cfg)
    && a.at - a.entry.created <= cfg.maxAgeSeconds * SECOND
  }

  predicate Scheduled(q: Queue, cfg: Config) {
    && (forall e :: e in q.file ==> OnSchedule(e, cfg))
    && (q.snapshot.Some? ==> q.snapshot.value <= q.file)
    && (forall a :: a in q.attempts ==> AttemptOk(a, cfg))
  }

  lemma FateOnSchedule(e: Entry, now: int, success: bool, cfg: Config)
    requires OnSchedule(e, cfg)
    ensures var fate := FateOf(e, now, success, cfg);
            && (forall x :: x in Left(e, fate) ==> OnSchedule(x, cfg))
            && (Attempted(fate) ==> AttemptOk(Attempt(e, e.attempts + 1, now), cfg))
  {
    hide BackoffOf;
  }

  lemma {:induction false} PassOnSchedule(es: seq<Entry>, now: int, outcomes: seq<bool>, cfg: Config)
    requires |outcomes| == |es| && forall e :: e in es ==> OnSchedule(e, cfg)
    ensures var p := PassOver(es, now, outcomes, cfg);
            && (forall e :: e in p.remaining ==> OnSchedule(e, cfg))
            && (forall a :: a in p.attempts ==> AttemptOk(a, cfg))
    decreases |es|
  {
    hide OnSchedule, AttemptOk, FateOf;
    if es != [] {
      var n := |es| - 1;
      assert forall e :: e in es[..n] ==> e in es;
      PassOnSchedule(es[..n], now, outcomes[..n], cfg);
      assert es[n] in es;
      FateOnSchedule(es[n], now, outcomes[n], cfg);
    }
  }

  lemma NextScheduled(q: Queue, a: Action, cfg: Config)
    requires Scheduled(q, cfg)
    ensures Scheduled(Next(q, a, cfg), cfg)
  {
    hide PassOver, AttemptOk, Ids, BackoffOf;
    if Rewrites(q, a) {
      assert forall e :: e in q.snapshot.value ==> e in q.file;
      PassOnSchedule(q.snapshot.value, a.now, a.outcomes, cfg);
    }
  }

  lemma {:induction false} ScheduleKept(actions: seq<Action>, cfg: Config)
    ensures Scheduled(Exec(actions, cfg), cfg)
  {
    hide Scheduled, Next;
    if actions == [] {
      AtStart();
    } else {
      var n := |actions| - 1;
      ScheduleKept(actions[..n], cfg);
      NextScheduled(Exec(actions[..n], cfg), actions[n], cfg);
    }
  }

  /**
    The schedule over whole runs: stored entries have fewer than the maximum of failed attempts, and the n-th
    attempt of a notification runs in a pass no earlier than the delays up to it add up to, counted from the first
    clock reading of its enqueue, and no later than the maximum age after its creation.
  */
  lemma {:induction false} AttemptsOnTime(actions: seq<Action>, cfg: Config)
    ensures var q := Exec(actions, cfg);
            && (forall e :: e in q.file ==> e.attempts == 0 || e.attempts < cfg.maxAttempts)
            && (forall a :: a in q.attempts ==> AttemptOk(a, cfg))
  {
    hide Exec, AttemptOk;
    ScheduleKept(actions, cfg);
  }

  /**
    The promised schedule, base * (2^n - 1) seconds, is what those delays add up to exactly if the last one fits in
    32 bits; otherwise they add up to less.
  */
  lemma PromisedExactly(first: int, n: nat, cfg: Config)
    requires n >= 1 && 0 <= cfg.backoffSeconds < TWO31
    ensures Earliest(first, n, cfg) >= first + cfg.backoffSeconds * (Pow2(n) - 1) * SECOND <==>
            cfg.backoffSeconds * Pow2(n - 1) < TWO31
  {
    hide Waited, Pow2;
    WaitedExactly(cfg.backoffSeconds, n);
  }

  /** Measured from the creation time an attempt can come early exactly if the clock moved between the two readings. */
  lemma FirstAttemptEarlyExactly(id: nat, t1: int, t2: int, cfg: Config)
    requires t1 <= t2 && 0 <= cfg.backoffSeconds <= cfg.maxAgeSeconds
    ensures var e := NewEntry(id, t1, t2, cfg);
            (exists now :: Attempted(FateOf(e, now, true, cfg)) && now < Earliest(e.created, 1, cfg)) <==> t1 < t2
  {
    var e := NewEntry(id, t1, t2, cfg);
    if t1 < t2 {
      var now := e.nextRetry;
      assert now - e.created <= cfg.backoffSeconds * SECOND <= cfg.maxAgeSeconds * SECOND;
      assert Attempted(FateOf(e, now, true, cfg));
    }
  }
}
