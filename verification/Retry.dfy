/**
  The notification retry queue: exponential backoff in 32-bit arithmetic, ageing, and one pass over the queue.
*/
module Retry {
  import opened Powers

  const SECOND := 10_000_000  // in ticks

  datatype Config = Config(maxAttempts: int, backoffSeconds: int, maxAgeSeconds: int)

  /**
    A queued notification. When it is enqueued the clock is read twice, first for `nextRetry` and then for
    `created`; `first` remembers the first reading.
  */
  datatype Entry = Entry(id: nat, attempts: nat, nextRetry: int, created: int, first: int)

  // ---------------------------------------------------------------- backoff

  const TWO31 := 0x8000_0000
  const TWO32 := 0x1_0000_0000

  /** The value of an integer kept in 32 bits, two's complement. */
  function Wrap32(x: int): int {
    (x + TWO31) % TWO32 - TWO31
  }

  /** BackoffSeconds * (1 << attempts), both operations in 32 bits; a shift uses the low five bits of its count. */
  function BackoffOf(base: int, attempts: nat): int {
    Wrap32(base * Wrap32(Pow2(attempts % 32)))
  }

  lemma WrapBounds(x: int)
    ensures -TWO31 <= Wrap32(x) < TWO31
    ensures x >= 0 ==> Wrap32(x) <= x
    ensures -TWO31 <= x < TWO31 ==> Wrap32(x) == x
  {}

  /**
    The delay after n failures never exceeds base * 2^n, and reaches it exactly if that number fits in 32 bits.
  */
  lemma {:induction false} BackoffHonoured(base: nat, n: nat)
    ensures BackoffOf(base, n) <= base * Pow2(n)
    ensures BackoffOf(base, n) >= base * Pow2(n) <==> base * Pow2(n) < TWO31
  {
    hide Pow2, Wrap32;
    Pow2Of30();
    WrapBounds(base * Wrap32(Pow2(n % 32)));
    if base == 0 {
      WrapBounds(0);
      assert base * Wrap32(Pow2(n % 32)) == 0 && base * Pow2(n) == 0;
    } else if n <= 30 {
      assert n % 32 == n;
      Pow2Grows(n, 30);
      WrapBounds(Pow2(n));
      WrapBounds(base * Pow2(n));
    } else {
      Pow2Grows(31, n);
      AtLeastOnce(base, Pow2(n));
    }
  }

  lemma AtLeastOnce(base: nat, x: nat)
    requires base > 0
    ensures base * x >= x
  {}

  /** With the default base of 30 seconds the delay after the 27th failure is negative. */
  lemma BackoffOverflows()
    ensures BackoffOf(30, 27) == -268435456
  {
    Pow2Ten(0);
    Pow2Ten(10);
    assert Pow2(7) == 128;
    Pow2Ten(7);
    Pow2Ten(17);
    assert Pow2(27) == 134217728;
  }

  /** The seconds from the enqueue to the moment the n-th attempt falls due, as the delays come out. */
  function Waited(base: int, n: nat): int {
    if n == 0 then 0 else if n == 1 then base else Waited(base, n - 1) + BackoffOf(base, n - 1)
  }

  /** That is at most base * (2^n - 1), and as much exactly if the last delay before the attempt fits in 32 bits. */
  lemma {:induction false} WaitedExactly(base: nat, n: nat)
    requires n >= 1 && base < TWO31
    ensures Waited(base, n) <= base * (Pow2(n) - 1)
    ensures Waited(base, n) == base * (Pow2(n) - 1) <==> base * Pow2(n - 1) < TWO31
  {
    hide BackoffOf;
    Pow2Next(n - 1);
    if n == 1 {
      assert Pow2(0) == 1;
    } else {
      hide Pow2;
      WaitedExactly(base, n - 1);
      BackoffHonoured(base, n - 1);
      Pow2Grows(n - 2, n - 1);
      Times(base, Pow2(n - 2), Pow2(n - 1));
      assert base * (Pow2(n) - 1) == base * (Pow2(n - 1) - 1) + base * Pow2(n - 1);
    }
  }

  lemma Times(a: nat, x: nat, y: nat)
    requires x <= y
    ensures a * x <= a * y
  {}

  // ---------------------------------------------------------------- one entry in one pass

  datatype Fate = AgedOut | NotYet | Sent | GaveUp | Again(entry: Entry)

  predicate Attempted(fate: Fate) {
    fate.Sent? || fate.GaveUp? || fate.Again?
  }

  function FateOf(e: Entry, now: int, success: bool, cfg: Config): Fate {
    if now - e.created > cfg.maxAgeSeconds * SECOND then AgedOut
    else if now < e.nextRetry then NotYet
    else if success then Sent
    else if e.attempts + 1 >= cfg.maxAttempts then GaveUp
    else Again(e.(attempts := e.attempts + 1,
                  nextRetry := now + BackoffOf(cfg.backoffSeconds, e.attempts + 1) * SECOND))
  }

  /** An attempt at delivery: the n-th for its notification, in a pass that began at `at`. */
  datatype Attempt = Attempt(entry: Entry, n: nat, at: int)

  /** What a pass leaves in the queue, the ids it delivered and discarded, and its attempts. */
  datatype Pass = Pass(remaining: seq<Entry>, delivered: seq<nat>, discarded: seq<nat>, attempts: seq<Attempt>)

  function Left(e: Entry, fate: Fate): seq<Entry> {
    match fate
    case NotYet => [e]
    case Again(e') => [e']
    case _ => []
  }

  function If(b: bool, id: nat): seq<nat> {
    if b then [id] else []
  }

  function PassOver(es: seq<Entry>, now: int, outcomes: seq<bool>, cfg: Config): Pass
    requires |outcomes| == |es|
  {
    if es == [] then Pass([], [], [], [])
    else
      var n := |es| - 1;
      var p := PassOver(es[..n], now, outcomes[..n], cfg);
      var fate := FateOf(es[n], now, outcomes[n], cfg);
      Pass(p.remaining + Left(es[n], fate),
           p.delivered + If(fate.Sent?, es[n].id),
           p.discarded + If(fate.AgedOut? || fate.GaveUp?, es[n].id),
           p.attempts + if Attempted(fate) then [Attempt(es[n], es[n].attempts + 1, now)] else [])
  }

  /** One more entry in the pass. */
  lemma {:induction false} PassStep(es: seq<Entry>, now: int, outcomes: seq<bool>, cfg: Config, i: nat)
    requires |outcomes| == |es| && i < |es|
    ensures var p := PassOver(es[..i], now, outcomes[..i], cfg);
            var q := PassOver(es[..i + 1], now, outcomes[..i + 1], cfg);
            var fate := FateOf(es[i], now, outcomes[i], cfg);
            && q.remaining == p.remaining + Left(es[i], fate)
            && |q.delivered| == |p.delivered| + (if fate.Sent? then 1 else 0)
            && |q.discarded| == |p.discarded| + (if fate.AgedOut? || fate.GaveUp? then 1 else 0)
  {
    hide FateOf, Left;
    assert es[..i + 1][..i] == es[..i] && outcomes[..i + 1][..i] == outcomes[..i];
  }

  lemma {:induction false} PassOverNothing(now: int, cfg: Config)
    ensures PassOver([], now, [], cfg) == Pass([], [], [], [])
  {}

  function Ids(es: seq<Entry>): seq<nat> {
    seq(|es|, i requires 0 <= i < |es| => es[i].id)
  }

  ghost predicate Subsequence(a: seq<nat>, b: seq<nat>) {
    a == [] || (
      b != [] &&
      var a', b' := a[..|a| - 1], b[..|b| - 1];
      if a[|a| - 1] == b[|b| - 1] then Subsequence(a', b') else Subsequence(a, b'))
  }

  lemma {:induction false} SubsequenceSnoc(a: seq<nat>, b: seq<nat>, x: nat)
    requires Subsequence(a, b)
    ensures Subsequence(a + [x], b + [x]) && Subsequence(a, b + [x])
    decreases |b|
  {
    assert (a + [x])[..|a|] == a && (b + [x])[..|b|] == b;
    if a != [] && a[|a| - 1] == x {
      SubsequenceShorter(a, b);
    }
  }

  lemma {:induction false} SubsequenceShorter(a: seq<nat>, b: seq<nat>)
    requires Subsequence(a, b) && a != []
    ensures Subsequence(a[..|a| - 1], b)
    decreases |b|
  {
    var a', b' := a[..|a| - 1], b[..|b| - 1];
    if a[|a| - 1] == b[|b| - 1] {
      if a' != [] && a'[|a'| - 1] == b[|b| - 1] {
        SubsequenceShorter(a', b');
      }
    } else {
      SubsequenceShorter(a, b');
      if a' != [] && a'[|a'| - 1] == b[|b| - 1] {
        SubsequenceShorter(a', b');
      }
    }
  }

  lemma IdsSnoc(es: seq<Entry>, e: Entry)
    ensures Ids(es + [e]) == Ids(es) + [e.id]
  {}

  lemma NoIds()
    ensures Ids([]) == [] && Subsequence([], [])
  {}

  /** Each entry is in exactly one of three places. */
  lemma FatePlaces(e: Entry, now: int, success: bool, cfg: Config)
    ensures var fate := FateOf(e, now, success, cfg);
            && multiset(Ids(Left(e, fate))) + multiset(If(fate.Sent?, e.id))
               + multiset(If(fate.AgedOut? || fate.GaveUp?, e.id)) == multiset{e.id}
            && (Left(e, fate) == [] || (|Left(e, fate)| == 1 && Left(e, fate)[0].id == e.id))
  {
    hide BackoffOf;
    var left := Left(e, FateOf(e, now, success, cfg));
    assert left == [] || Ids(left) == [e.id];
  }

  lemma IdsOfConcat(a: seq<Entry>, b: seq<Entry>)
    ensures Ids(a + b) == Ids(a) + Ids(b)
  {}

  lemma {:induction false} PassPlaces(es: seq<Entry>, now: int, outcomes: seq<bool>, cfg: Config)
    requires |outcomes| == |es|
    ensures var p := PassOver(es, now, outcomes, cfg);
            multiset(Ids(es)) == multiset(Ids(p.remaining)) + multiset(p.delivered) + multiset(p.discarded)
    decreases |es|
  {
    hide FateOf, Ids, Left, If;
    if es == [] {
      NoIds();
    } else {
      var n := |es| - 1;
      PassPlaces(es[..n], now, outcomes[..n], cfg);
      var p := PassOver(es[..n], now, outcomes[..n], cfg);
      FatePlaces(es[n], now, outcomes[n], cfg);
      IdsSnoc(es[..n], es[n]);
      assert es[..n] + [es[n]] == es;
      IdsOfConcat(p.remaining, Left(es[n], FateOf(es[n], now, outcomes[n], cfg)));
    }
  }

  lemma {:induction false} PassOrder(es: seq<Entry>, now: int, outcomes: seq<bool>, cfg: Config)
    requires |outcomes| == |es|
    ensures Subsequence(Ids(PassOver(es, now, outcomes, cfg).remaining), Ids(es))
    decreases |es|
  {
    hide FateOf, Subsequence, Ids, Left, If;
    if es == [] {
      NoIds();
    } else {
      var n := |es| - 1;
      PassOrder(es[..n], now, outcomes[..n], cfg);
      var p := PassOver(es[..n], now, outcomes[..n], cfg);
      FatePlaces(es[n], now, outcomes[n], cfg);
      var left := Left(es[n], FateOf(es[n], now, outcomes[n], cfg));
      SubsequenceSnoc(Ids(p.remaining), Ids(es[..n]), es[n].id);
      IdsSnoc(es[..n], es[n]);
      assert es[..n] + [es[n]] == es;
      if left == [] {
        assert p.remaining + left == p.remaining;
      } else {
        assert left == [left[0]];
        IdsSnoc(p.remaining, left[0]);
      }
    }
  }

  /** One pass loses nothing and keeps the order: each entry is delivered, discarded or still queued. */
  lemma {:induction false} PassConserves(es: seq<Entry>, now: int, outcomes: seq<bool>, cfg: Config)
    requires |outcomes| == |es|
    ensures var p := PassOver(es, now, outcomes, cfg);
            && multiset(Ids(es)) == multiset(Ids(p.remaining)) + multiset(p.delivered) + multiset(p.discarded)
            && Subsequence(Ids(p.remaining), Ids(es))
  {
    hide PassOver, Ids, Subsequence;
    PassPlaces(es, now, outcomes, cfg);
    PassOrder(es, now, outcomes, cfg);
  }

  // ---------------------------------------------------------------- the class

  class RetryQueue {
    const config: Config
    var file: seq<Entry>
    var retryCount: nat
    var discardCount: nat

    constructor (config: Config)
      ensures this.config == config && file == [] && retryCount == 0 && discardCount == 0
    {
      this.config := config;
      file, retryCount, discardCount := [], 0, 0;
    }

    method EnqueueEntry(id: nat, t1: int, t2: int)
      modifies this`file
      ensures file == old(file) + [Entry(id, 0, t1 + config.backoffSeconds * SECOND, t2, t1)]
    {
      file := file + [Entry(id, 0, t1 + config.backoffSeconds * SECOND, t2, t1)];
    }

    /** Other threads may enqueue while deliveries are awaited. */
    method Others()
      modifies this`file
      ensures old(file) <= file
    {
      var more: seq<Entry> := *;
      file := file + more;
    }

    /**
      One pass: whatever other threads enqueue while it runs,
      the file is left with what remains of the entries read.
    */
    method ProcessQueue(now: int, outcomes: seq<bool>)
      requires |outcomes| == |file|
      modifies this
      ensures old(file) == [] ==> file == [] && retryCount == old(retryCount) && discardCount == old(discardCount)
      ensures old(file) != [] ==>
                var p := PassOver(old(file), now, outcomes, config);
                && file == p.remaining
                && retryCount == old(retryCount) + |p.delivered| && discardCount == old(discardCount) + |p.discarded|
    {
      hide BackoffOf, PassOver;
      var entries := file;
      if |entries| == 0 {
        return;
      }
      var remaining: seq<Entry> := [];
      PassOverNothing(now, config);
      for i := 0 to |entries|
        invariant var p := PassOver(entries[..i], now, outcomes[..i], config);
                  && remaining == p.remaining
                  && retryCount == old(retryCount) + |p.delivered| && discardCount == old(discardCount) + |p.discarded|
      {
        var entry := entries[i];
        PassStep(entries, now, outcomes, config, i);
        if now - entry.created > config.maxAgeSeconds * SECOND {
          discardCount := discardCount + 1;
          continue;
        }
        if now < entry.nextRetry {
          remaining := remaining + [entry];
          continue;
        }
        Others();
        if outcomes[i] {
          retryCount := retryCount + 1;
          continue;
        }
        entry := entry.(attempts := entry.attempts + 1);
        if entry.attempts >= config.maxAttempts {
          discardCount := discardCount + 1;
          continue;
        }
        var backoff := BackoffOf(config.backoffSeconds, entry.attempts);
        remaining := remaining + [entry.(nextRetry := now + backoff * SECOND)];
      }
      assert entries[..|entries|] == entries && outcomes[..|entries|] == outcomes;
      file := remaining;
    }
  }
}
