/**
  The node's sliding-window rate limiter: two maps of buckets share one counter that triggers
  sweeping. Compared with a limiter that keeps every accepted request for ever.
*/
module RateLimit {
  type Buckets = map<string, seq<int>>

  const SWEEP_EVERY := 100
  const SWEEP_ABOVE := 1000

  const WRITE_MAX := 100
  const WRITE_WINDOW := 60
  const READ_MAX := 200
  const READ_WINDOW := 60

  datatype Kind = Write | Read

  function MaxOf(kind: Kind): nat {
    match kind case Write => WRITE_MAX case Read => READ_MAX
  }

  function WindowOf(kind: Kind): nat {
    match kind case Write => WRITE_WINDOW case Read => READ_WINDOW
  }

  function After(s: seq<int>, cutoff: int): seq<int> {
    if s == [] then [] else if s[0] > cutoff then [s[0]] + After(s[1..], cutoff) else After(s[1..], cutoff)
  }

  function BucketOf(buckets: Buckets, ip: string): seq<int> {
    if ip in buckets then buckets[ip] else []
  }

  predicate Stale(bucket: seq<int>, cutoff: int) {
    bucket == [] || bucket[|bucket| - 1] < cutoff
  }

  function Sweep(buckets: Buckets, cutoff: int): Buckets {
    map ip | ip in buckets && !Stale(buckets[ip], cutoff) :: buckets[ip]
  }

  datatype Limiter = Limiter(write: Buckets, read: Buckets, counter: nat)

  const NEW_LIMITER := Limiter(map[], map[], 0)

  function BucketsOf(l: Limiter, kind: Kind): Buckets {
    match kind case Write => l.write case Read => l.read
  }

  function WithBuckets(l: Limiter, kind: Kind, buckets: Buckets): Limiter {
    match kind case Write => l.(write := buckets) case Read => l.(read := buckets)
  }

  datatype Request = Request(kind: Kind, ip: string, now: int)

  /** One request: the limiter afterwards, and whether the request is let through. */
  function Check(l: Limiter, r: Request): (Limiter, bool) {
    var cutoff := r.now - WindowOf(r.kind);
    var bucket := After(BucketOf(BucketsOf(l, r.kind), r.ip), cutoff);
    var trimmed := BucketsOf(l, r.kind)[r.ip := bucket];
    if |bucket| >= MaxOf(r.kind) then (WithBuckets(l, r.kind, trimmed), false)
    else
      var added := trimmed[r.ip := bucket + [r.now]];
      if l.counter + 1 >= SWEEP_EVERY || |added| > SWEEP_ABOVE then
        (WithBuckets(l, r.kind, Sweep(added, cutoff)).(counter := 0), true)
      else
        (WithBuckets(l, r.kind, added).(counter := l.counter + 1), true)
  }

  function Verdicts(l: Limiter, rs: seq<Request>): seq<bool>
    decreases |rs|
  {
    if rs == [] then []
    else
      var (l', ok) := Check(l, rs[0]);
      [ok] + Verdicts(l', rs[1..])
  }

  class RateLimiter {
    var writeBuckets: Buckets
    var readBuckets: Buckets
    var gcCounter: nat

    function State(): Limiter
      reads this
    {
      Limiter(writeBuckets, readBuckets, gcCounter)
    }

    constructor ()
      ensures State() == NEW_LIMITER
    {
      writeBuckets, readBuckets, gcCounter := map[], map[], 0;
    }

    method CheckWriteRate(ip: string, now: int) returns (ok: bool)
      modifies this
      ensures (State(), ok) == Check(old(State()), Request(Write, ip, now))
    {
      writeBuckets, ok := Limit(ip, now, writeBuckets, WRITE_MAX, WRITE_WINDOW);
    }

    method CheckReadRate(ip: string, now: int) returns (ok: bool)
      modifies this
      ensures (State(), ok) == Check(old(State()), Request(Read, ip, now))
    {
      readBuckets, ok := Limit(ip, now, readBuckets, READ_MAX, READ_WINDOW);
    }

    method KeepRecent(times: seq<int>, cutoff: int) returns (bucket: seq<int>)
      ensures bucket == After(times, cutoff)
    {
      bucket := [];
      assert times[0..] == times;
      for i := 0 to |times|
        invariant After(times, cutoff) == bucket + After(times[i..], cutoff)
      {
        assert times[i..][1..] == times[i + 1..];
        if times[i] > cutoff {
          bucket := bucket + [times[i]];
        }
      }
    }

    /** _rate_limit on either map; rejected requests neither count nor sweep. */
    method Limit(ip: string, now: int, buckets0: Buckets, maxReq: nat, window: nat) returns (buckets: Buckets, ok: bool)
      modifies this`gcCounter
      ensures var cutoff := now - window;
              var bucket := After(BucketOf(buckets0, ip), cutoff);
              var added := buckets0[ip := bucket][ip := bucket + [now]];
              && ok == (|bucket| < maxReq)
              && (!ok ==> buckets == buckets0[ip := bucket] && gcCounter == old(gcCounter))
              && (ok ==>
                    var sweep := old(gcCounter) + 1 >= SWEEP_EVERY || |added| > SWEEP_ABOVE;
                    && buckets == (if sweep then Sweep(added, cutoff) else added)
                    && gcCounter == (if sweep then 0 else old(gcCounter) + 1))
    {
      hide After;
      var cutoff := now - window;
      var bucket := KeepRecent(if ip in buckets0 then buckets0[ip] else [], cutoff);
      buckets := buckets0[ip := bucket];
      if |bucket| >= maxReq {
        return buckets, false;
      }
      buckets := buckets[ip := bucket + [now]];
      gcCounter := gcCounter + 1;
      if gcCounter >= SWEEP_EVERY || |buckets| > SWEEP_ABOVE {
        gcCounter := 0;
        var all := buckets;
        buckets := map k | k in all && !(|all[k]| == 0 || all[k][|all[k]| - 1] < cutoff) :: all[k];
      }
      ok := true;
    }
  }

  // ---------------------------------------------------------------- the reference

  /** All accepted requests of one kind and client, oldest first. */
  type History = map<string, seq<int>>

  datatype Reference = Reference(write: History, read: History)

  function HistoryOf(ref: Reference, kind: Kind, ip: string): seq<int> {
    BucketOf(match kind case Write => ref.write case Read => ref.read, ip)
  }

  function Accept(ref: Reference, r: Request): Reference {
    var h := HistoryOf(ref, r.kind, r.ip) + [r.now];
    match r.kind
    case Write => ref.(write := ref.write[r.ip := h])
    case Read => ref.(read := ref.read[r.ip := h])
  }

  /** Let through if fewer than the maximum were accepted within the window that ends now. */
  function ReferenceCheck(ref: Reference, r: Request): (Reference, bool) {
    var ok := |After(HistoryOf(ref, r.kind, r.ip), r.now - WindowOf(r.kind))| < MaxOf(r.kind);
    (if ok then Accept(ref, r) else ref, ok)
  }

  function ReferenceVerdicts(ref: Reference, rs: seq<Request>): seq<bool>
    decreases |rs|
  {
    if rs == [] then []
    else
      var (ref', ok) := ReferenceCheck(ref, rs[0]);
      [ok] + ReferenceVerdicts(ref', rs[1..])
  }

  predicate Monotone(rs: seq<Request>, start: int)
    decreases |rs|
  {
    rs == [] || (start <= rs[0].now && Monotone(rs[1..], rs[0].now))
  }

  // ---------------------------------------------------------------- sweeping is invisible

  predicate SortedUpTo(s: seq<int>, t: int) {
    && (forall i, j :: 0 <= i < j < |s| ==> s[i] <= s[j])
    && (forall i :: 0 <= i < |s| ==> s[i] <= t)
  }

  lemma {:induction false} AfterOfConcat(a: seq<int>, b: seq<int>, c: int)
    ensures After(a + b, c) == After(a, c) + After(b, c)
  {
    if a == [] {
      assert a + b == b;
    } else {
      assert (a + b)[1..] == a[1..] + b;
      AfterOfConcat(a[1..], b, c);
    }
  }

  lemma {:induction false} AfterAfter(s: seq<int>, c: int, c': int)
    requires c <= c'
    ensures After(After(s, c), c') == After(s, c')
  {
    if s != [] {
      AfterAfter(s[1..], c, c');
      var rest := After(s[1..], c);
      if s[0] > c {
        assert ([s[0]] + rest)[1..] == rest;
      }
    }
  }

  lemma {:induction false} AfterMembers(s: seq<int>, c: int)
    ensures forall x :: x in After(s, c) ==> x in s && x > c
  {
    if s != [] {
      AfterMembers(s[1..], c);
      assert s == [s[0]] + s[1..];
    }
  }

  lemma {:induction false} AfterSorted(s: seq<int>, c: int, t: int)
    requires SortedUpTo(s, t)
    ensures SortedUpTo(After(s, c), t)
    ensures forall x :: x in After(s, c) ==> x in s && x > c
  {
    AfterMembers(s, c);
    if s != [] {
      AfterMembers(s[1..], c);
      AfterSorted(s[1..], c, t);
      SortedCons(s, After(s[1..], c), t);
    }
  }

  lemma SortedCons(s: seq<int>, rest: seq<int>, t: int)
    requires s != [] && SortedUpTo(s, t) && SortedUpTo(rest, t)
    requires forall x :: x in rest ==> x in s[1..]
    ensures SortedUpTo([s[0]] + rest, t)
  {
    forall j | 0 <= j < |rest|
      ensures s[0] <= rest[j]
    {
      assert rest[j] in s[1..];
    }
  }

  lemma {:induction false} AfterNone(s: seq<int>, c: int)
    requires forall i :: 0 <= i < |s| ==> s[i] <= c
    ensures After(s, c) == []
  {
    if s != [] {
      AfterNone(s[1..], c);
    }
  }

  /** A bucket means the same as the full history, now and later. */
  predicate Agree(bucket: seq<int>, history: seq<int>, now: int, window: int) {
    && SortedUpTo(bucket, now) && SortedUpTo(history, now)
    && After(bucket, now - window) == After(history, now - window)
  }

  ghost predicate Refines(l: Limiter, ref: Reference, now: int) {
    forall kind, ip :: Agree(BucketOf(BucketsOf(l, kind), ip), HistoryOf(ref, kind, ip), now, WindowOf(kind))
  }

  lemma AgreeLater(bucket: seq<int>, history: seq<int>, now: int, now': int, window: int)
    requires Agree(bucket, history, now, window) && now <= now'
    ensures Agree(bucket, history, now', window)
  {
    AfterAfter(bucket, now - window, now' - window);
    AfterAfter(history, now - window, now' - window);
  }

  /** The bucket of the client itself after an accepted request. */
  lemma AgreeAdded(bucket: seq<int>, history: seq<int>, now: int, window: int)
    requires Agree(bucket, history, now, window)
    ensures var trimmed := After(bucket, now - window);
            && Agree(trimmed, history, now, window)
            && Agree(trimmed + [now], history + [now], now, window)
  {
    hide After;
    var c := now - window;
    AfterSorted(bucket, c, now);
    AfterAfter(bucket, c, c);
    AfterOfConcat(After(bucket, c), [now], c);
    AfterOfConcat(history, [now], c);
  }

  /** Dropping a stale bucket changes nothing. */
  lemma AgreeSwept(bucket: seq<int>, history: seq<int>, now: int, window: int)
    requires Agree(bucket, history, now, window) && Stale(bucket, now - window)
    ensures Agree([], history, now, window)
  {
    hide After;
    AfterNone(bucket, now - window);
    AfterNone([], now - window);
  }

  /** A bucket after a request that may have swept: kept, or gone because it was stale. */
  lemma Survives(bucket: seq<int>, history: seq<int>, now: int, window: int, left: seq<int>)
    requires Agree(bucket, history, now, window)
    requires left == bucket || (left == [] && Stale(bucket, now - window))
    ensures Agree(left, history, now, window)
  {
    hide Agree;
    if left != bucket {
      AgreeSwept(bucket, history, now, window);
    }
  }

  lemma SweepLeaves(buckets: Buckets, cutoff: int, ip: string)
    ensures var left := BucketOf(Sweep(buckets, cutoff), ip);
            left == BucketOf(buckets, ip) || (left == [] && Stale(BucketOf(buckets, ip), cutoff))
  {}

  /** What a request does to the buckets of its kind, client by client. */
  lemma BucketAfter(l: Limiter, r: Request, ip: string)
    ensures var cutoff := r.now - WindowOf(r.kind);
            var l' := Check(l, r).0;
            var before := BucketOf(BucketsOf(l, r.kind), ip);
            var trimmed := After(before, cutoff);
            var ok := |After(BucketOf(BucketsOf(l, r.kind), r.ip), cutoff)| < MaxOf(r.kind);
            var touched := if ip != r.ip then before else if ok then trimmed + [r.now] else trimmed;
            var left := BucketOf(BucketsOf(l', r.kind), ip);
            && Check(l, r).1 == ok
            && (left == touched || (left == [] && Stale(touched, cutoff)))
            && (forall kind :: kind != r.kind ==> BucketsOf(l', kind) == BucketsOf(l, kind))
  {
    hide After, Stale, Sweep;
    var cutoff := r.now - WindowOf(r.kind);
    var bucket := After(BucketOf(BucketsOf(l, r.kind), r.ip), cutoff);
    SweepLeaves(BucketsOf(l, r.kind)[r.ip := bucket][r.ip := bucket + [r.now]], cutoff, ip);
  }

  lemma CheckRefines(l: Limiter, ref: Reference, r: Request)
    requires Refines(l, ref, r.now)
    ensures var (l', ok) := Check(l, r);
            var (ref', ok') := ReferenceCheck(ref, r);
            ok == ok' && Refines(l', ref', r.now)
  {
    hide After, Agree, Stale, Check;
    var l' := Check(l, r).0;
    var ref' := ReferenceCheck(ref, r).0;
    var window := WindowOf(r.kind);
    assert Agree(BucketOf(BucketsOf(l, r.kind), r.ip), HistoryOf(ref, r.kind, r.ip), r.now, window);
    SameAfter(BucketOf(BucketsOf(l, r.kind), r.ip), HistoryOf(ref, r.kind, r.ip), r.now, window);
    BucketAfter(l, r, r.ip);
    forall kind, ip
      ensures Agree(BucketOf(BucketsOf(l', kind), ip), HistoryOf(ref', kind, ip), r.now, WindowOf(kind))
    {
      var bucket, history := BucketOf(BucketsOf(l, kind), ip), HistoryOf(ref, kind, ip);
      assert Agree(bucket, history, r.now, WindowOf(kind));
      BucketAfter(l, r, ip);
      if kind == r.kind {
        AgreeAdded(bucket, history, r.now, window);
        var trimmed := After(bucket, r.now - window);
        var touched := if ip != r.ip then bucket else if Check(l, r).1 then trimmed + [r.now] else trimmed;
        Survives(touched, HistoryOf(ref', kind, ip), r.now, window, BucketOf(BucketsOf(l', kind), ip));
      }
    }
  }

  lemma {:induction false} SameAfter(bucket: seq<int>, history: seq<int>, now: int, window: int)
    requires Agree(bucket, history, now, window)
    ensures After(bucket, now - window) == After(history, now - window)
  {}

  lemma RefinesLater(l: Limiter, ref: Reference, now: int, now': int)
    requires Refines(l, ref, now) && now <= now'
    ensures Refines(l, ref, now')
  {
    hide Agree;
    forall kind, ip
      ensures Agree(BucketOf(BucketsOf(l, kind), ip), HistoryOf(ref, kind, ip), now', WindowOf(kind))
    {
      AgreeLater(BucketOf(BucketsOf(l, kind), ip), HistoryOf(ref, kind, ip), now, now', WindowOf(kind));
    }
  }

  lemma {:induction false} VerdictsRefine(l: Limiter, ref: Reference, rs: seq<Request>, start: int)
    requires Refines(l, ref, start) && Monotone(rs, start)
    ensures Verdicts(l, rs) == ReferenceVerdicts(ref, rs)
    decreases |rs|
  {
    hide Refines, Check, ReferenceCheck;
    if rs != [] {
      RefinesLater(l, ref, start, rs[0].now);
      CheckRefines(l, ref, rs[0]);
      VerdictsRefine(Check(l, rs[0]).0, ReferenceCheck(ref, rs[0]).0, rs[1..], rs[0].now);
    }
  }

  const NO_HISTORY := Reference(map[], map[])

  /**
    The sweep never changes a verdict: reads and writes of all clients interleaved, and the counter shared by
    both maps, every request is judged as if every accepted request had been kept.
  */
  lemma {:induction false} SweepIsInvisible(rs: seq<Request>, start: int)
    requires Monotone(rs, start)
    ensures Verdicts(NEW_LIMITER, rs) == ReferenceVerdicts(NO_HISTORY, rs)
  {
    VerdictsRefine(NEW_LIMITER, NO_HISTORY, rs, start);
  }

  // ---------------------------------------------------------------- the bound

  /** Requests accepted after lo and not later than hi. */
  function Within(s: seq<int>, lo: int, hi: int): seq<int> {
    if s == [] then [] else if lo < s[0] <= hi then [s[0]] + Within(s[1..], lo, hi) else Within(s[1..], lo, hi)
  }

  /** Requests in the window of that length ending at t. */
  function InWindow(s: seq<int>, t: int, window: int): seq<int> {
    Within(s, t - window, t)
  }

  lemma {:induction false} WithinOfConcat(a: seq<int>, b: seq<int>, lo: int, hi: int)
    ensures Within(a + b, lo, hi) == Within(a, lo, hi) + Within(b, lo, hi)
  {
    if a == [] {
      assert a + b == b;
    } else {
      assert (a + b)[1..] == a[1..] + b;
      WithinOfConcat(a[1..], b, lo, hi);
    }
  }

  lemma {:induction false} WithinAfter(s: seq<int>, lo: int, hi: int, cutoff: int)
    requires cutoff <= lo
    ensures |Within(s, lo, hi)| <= |After(s, cutoff)|
  {
    if s != [] {
      WithinAfter(s[1..], lo, hi, cutoff);
    }
  }

  /** At most `max` requests in every window of that length. */
  ghost predicate Spread(history: seq<int>, max: nat, window: int) {
    forall t :: |InWindow(history, t, window)| <= max
  }

  lemma {:induction false} SpreadAdded(history: seq<int>, now: int, max: nat, window: int)
    requires Spread(history, max, window) && |After(history, now - window)| < max
    ensures Spread(history + [now], max, window)
  {
    forall t
      ensures |InWindow(history + [now], t, window)| <= max
    {
      WithinOfConcat(history, [now], t - window, t);
      assert |InWindow(history, t, window)| <= max;
      WithinOne(now, t - window, t);
      if t >= now {
        WithinAfter(history, t - window, t, now - window);
      }
    }
  }

  lemma {:induction false} WithinOne(x: int, lo: int, hi: int)
    ensures Within([x], lo, hi) == if lo < x <= hi then [x] else []
  {
    assert [x][1..] == [];
  }

  ghost predicate AllSpread(ref: Reference) {
    forall kind, ip :: Spread(HistoryOf(ref, kind, ip), MaxOf(kind), WindowOf(kind))
  }

  function FinalReference(ref: Reference, rs: seq<Request>): Reference
    decreases |rs|
  {
    if rs == [] then ref else FinalReference(ReferenceCheck(ref, rs[0]).0, rs[1..])
  }

  lemma {:induction false} StaysSpread(ref: Reference, rs: seq<Request>)
    requires AllSpread(ref)
    ensures AllSpread(FinalReference(ref, rs))
    decreases |rs|
  {
    hide Spread, After;
    if rs != [] {
      var r := rs[0];
      var ref' := ReferenceCheck(ref, r).0;
      forall kind, ip
        ensures Spread(HistoryOf(ref', kind, ip), MaxOf(kind), WindowOf(kind))
      {
        assert Spread(HistoryOf(ref, kind, ip), MaxOf(kind), WindowOf(kind));
        if kind == r.kind && ip == r.ip && ReferenceCheck(ref, r).1 {
          SpreadAdded(HistoryOf(ref, kind, ip), r.now, MaxOf(kind), WindowOf(kind));
        }
      }
      StaysSpread(ref', rs[1..]);
    }
  }

  /** The times at which a client's requests of one kind were let through, given the verdicts. */
  function Accepted(rs: seq<Request>, verdicts: seq<bool>, kind: Kind, ip: string): seq<int>
    requires |rs| == |verdicts|
  {
    if rs == [] then []
    else
      (if verdicts[0] && rs[0].kind == kind && rs[0].ip == ip then [rs[0].now] else [])
      + Accepted(rs[1..], verdicts[1..], kind, ip)
  }

  lemma {:induction false} VerdictCount(ref: Reference, rs: seq<Request>)
    ensures |ReferenceVerdicts(ref, rs)| == |rs|
    decreases |rs|
  {
    if rs != [] {
      VerdictCount(ReferenceCheck(ref, rs[0]).0, rs[1..]);
    }
  }

  lemma HistoryStep(ref: Reference, r: Request, kind: Kind, ip: string)
    ensures var (ref', ok) := ReferenceCheck(ref, r);
            HistoryOf(ref', kind, ip) ==
            HistoryOf(ref, kind, ip) + if ok && r.kind == kind && r.ip == ip then [r.now] else []
  {
    hide After;
  }

  lemma {:induction false} HistoryIsAccepted(ref: Reference, rs: seq<Request>, kind: Kind, ip: string)
    ensures |ReferenceVerdicts(ref, rs)| == |rs|
    ensures HistoryOf(FinalReference(ref, rs), kind, ip) ==
            HistoryOf(ref, kind, ip) + Accepted(rs, ReferenceVerdicts(ref, rs), kind, ip)
    decreases |rs|
  {
    hide ReferenceCheck, HistoryOf;
    VerdictCount(ref, rs);
    if rs != [] {
      var (ref', ok) := ReferenceCheck(ref, rs[0]);
      HistoryStep(ref, rs[0], kind, ip);
      HistoryIsAccepted(ref', rs[1..], kind, ip);
      assert ReferenceVerdicts(ref, rs)[1..] == ReferenceVerdicts(ref', rs[1..]);
    }
  }

  /**
    The bound: over any run under a clock that does not go back, for every client and time t, at most 100 writes and
    200 reads are let through in the minute (t - 60, t].
  */
  lemma {:induction false} AtMostMaxPerWindow(rs: seq<Request>, start: int, kind: Kind, ip: string, t: int)
    requires Monotone(rs, start)
    ensures |Verdicts(NEW_LIMITER, rs)| == |rs|
    ensures |Within(Accepted(rs, Verdicts(NEW_LIMITER, rs), kind, ip), t - 60, t)| <= if kind.Write? then 100 else 200
  {
    hide ReferenceVerdicts, Verdicts, FinalReference, Accepted, Within;
    SweepIsInvisible(rs, start);
    HistoryIsAccepted(NO_HISTORY, rs, kind, ip);
    NothingAccepted();
    StaysSpread(NO_HISTORY, rs);
    assert Spread(HistoryOf(FinalReference(NO_HISTORY, rs), kind, ip), MaxOf(kind), WindowOf(kind));
    var accepted := Accepted(rs, ReferenceVerdicts(NO_HISTORY, rs), kind, ip);
    var history := HistoryOf(FinalReference(NO_HISTORY, rs), kind, ip);
    assert HistoryOf(NO_HISTORY, kind, ip) == [] && [] + accepted == accepted;
    assert |InWindow(history, t, WindowOf(kind))| <= MaxOf(kind);
  }

  lemma NothingAccepted()
    ensures AllSpread(NO_HISTORY)
  {
    forall kind, ip
      ensures Spread(HistoryOf(NO_HISTORY, kind, ip), MaxOf(kind), WindowOf(kind))
    {
      forall t
        ensures |InWindow([], t, WindowOf(kind))| <= MaxOf(kind)
      {}
      assert HistoryOf(NO_HISTORY, kind, ip) == [];
    }
  }

  // ---------------------------------------------------------------- exactly what is let through

  /** The times in a sequence that lie after a cutoff, by their places. */
  function Later(s: seq<int>, cutoff: int): set<int> {
    set i | 0 <= i < |s| && s[i] > cutoff
  }

  lemma {:induction false} AfterCounts(s: seq<int>, cutoff: int)
    ensures |After(s, cutoff)| == |Later(s, cutoff)|
    decreases |s|
  {
    if s == [] {
      assert Later(s, cutoff) == {};
    } else {
      var d, t := s[..|s| - 1], s[|s| - 1];
      assert s == d + [t] && [t][1..] == [];
      AfterCounts(d, cutoff);
      AfterOfConcat(d, [t], cutoff);
      assert After([t], cutoff) == if t > cutoff then [t] else [];
      assert Later(s, cutoff) == Later(d, cutoff) + if t > cutoff then {|d|} else {};
    }
  }

  lemma {:induction false} VerdictsSnoc(ref: Reference, rs: seq<Request>, r: Request)
    ensures ReferenceVerdicts(ref, rs + [r]) ==
            ReferenceVerdicts(ref, rs) + [ReferenceCheck(FinalReference(ref, rs), r).1]
    decreases |rs|
  {
    hide ReferenceCheck;
    if rs == [] {
      assert [] + [r] == [r] && [r][1..] == [];
    } else {
      assert (rs + [r])[1..] == rs[1..] + [r] && (rs + [r])[0] == rs[0];
      VerdictsSnoc(ReferenceCheck(ref, rs[0]).0, rs[1..], r);
    }
  }

  lemma {:induction false} MonotoneSnoc(rs: seq<Request>, r: Request, start: int)
    requires Monotone(rs + [r], start)
    ensures Monotone(rs, start)
    decreases |rs|
  {
    if rs != [] {
      assert (rs + [r])[0] == rs[0] && (rs + [r])[1..] == rs[1..] + [r];
      MonotoneSnoc(rs[1..], r, rs[0].now);
    }
  }

  /**
    Exactly: after any run, a write is let through if and only if fewer than 100 writes of that client were let through
    in the minute before, and a read if fewer than 200 reads were.
  */
  lemma {:induction false} AcceptedExactly(rs: seq<Request>, r: Request, start: int)
    requires Monotone(rs + [r], start)
    ensures |Verdicts(NEW_LIMITER, rs)| == |rs| && |Verdicts(NEW_LIMITER, rs + [r])| == |rs| + 1
    ensures var earlier := Accepted(rs, Verdicts(NEW_LIMITER, rs), r.kind, r.ip);
            Verdicts(NEW_LIMITER, rs + [r])[|rs|] <==>
            |Later(earlier, r.now - 60)| < if r.kind.Write? then 100 else 200
  {
    hide ReferenceVerdicts, Verdicts, FinalReference, Accepted, After, Later, Monotone;
    MonotoneSnoc(rs, r, start);
    SweepIsInvisible(rs, start);
    SweepIsInvisible(rs + [r], start);
    HistoryIsAccepted(NO_HISTORY, rs, r.kind, r.ip);
    VerdictsSnoc(NO_HISTORY, rs, r);
    var earlier := Accepted(rs, ReferenceVerdicts(NO_HISTORY, rs), r.kind, r.ip);
    assert HistoryOf(NO_HISTORY, r.kind, r.ip) == [] && [] + earlier == earlier;
    AfterCounts(earlier, r.now - WindowOf(r.kind));
  }

  // ---------------------------------------------------------------- sweeping keeps the maps small

  function FinalLimiter(l: Limiter, rs: seq<Request>): Limiter {
    if rs == [] then l
    else Check(FinalLimiter(l, rs[..|rs| - 1]), rs[|rs| - 1]).0
  }

  lemma SizeIs(buckets: Buckets, ip: string, a: seq<int>, b: seq<int>)
    ensures var added := buckets[ip := a][ip := b];
            added.Keys == buckets.Keys + {ip} && |added| == |buckets.Keys + {ip}|
  {
    var added := buckets[ip := a][ip := b];
    assert added.Keys == buckets.Keys + {ip};
    assert |added| == |added.Keys|;
  }

  /** When a request that is let through sweeps, and what is left then. */
  lemma SweepsExactly(l: Limiter, r: Request)
    requires Check(l, r).1
    ensures var l' := Check(l, r).0;
            var before, after := BucketsOf(l, r.kind), BucketsOf(l', r.kind);
            var clients := before.Keys + {r.ip};
            && l'.counter == (if l.counter + 1 >= 100 || |clients| > 1000 then 0 else l.counter + 1)
            && after.Keys <= clients
            && (l'.counter > 0 ==> after.Keys == clients)
            && (l'.counter == 0 ==> forall ip :: ip in clients ==>
                  (ip in after <==> ip == r.ip || (before[ip] != [] && before[ip][|before[ip]| - 1] >= r.now - 60)))
  {
    hide After;
    var bucket := After(BucketOf(BucketsOf(l, r.kind), r.ip), r.now - WindowOf(r.kind));
    SizeIs(BucketsOf(l, r.kind), r.ip, bucket, bucket + [r.now]);
  }

  /** Every client in the map has made its last request since a minute before t. */
  predicate AllRecent(buckets: Buckets, t: int) {
    forall ip :: ip in buckets ==> buckets[ip] != [] && buckets[ip][|buckets[ip]| - 1] >= t - 60
  }

  ghost predicate Small(l: Limiter, now: int) {
    forall kind :: |BucketsOf(l, kind)| <= 1000 || exists t :: t <= now && AllRecent(BucketsOf(l, kind), t)
  }

  lemma AcceptedSmall(l: Limiter, r: Request)
    requires Check(l, r).1
    ensures var after := BucketsOf(Check(l, r).0, r.kind); |after| <= 1000 || AllRecent(after, r.now)
  {
    hide After;
    var cutoff := r.now - WindowOf(r.kind);
    var bucket := After(BucketOf(BucketsOf(l, r.kind), r.ip), cutoff);
    var added := BucketsOf(l, r.kind)[r.ip := bucket][r.ip := bucket + [r.now]];
    var after := BucketsOf(Check(l, r).0, r.kind);
    assert |added| > SWEEP_ABOVE || after != added ==> after == Sweep(added, cutoff);
  }

  lemma RejectedSmall(l: Limiter, r: Request, t: int)
    requires !Check(l, r).1 && t <= r.now
    ensures var before, after := BucketsOf(l, r.kind), BucketsOf(Check(l, r).0, r.kind);
            && |after| == |before| && (AllRecent(before, t) ==> AllRecent(after, t))
  {
    hide After;
    var before := BucketsOf(l, r.kind);
    var bucket := After(BucketOf(before, r.ip), r.now - WindowOf(r.kind));
    AfterMembers(BucketOf(before, r.ip), r.now - WindowOf(r.kind));
    assert bucket != [] && bucket[|bucket| - 1] in bucket;
    AfterNone([], r.now - WindowOf(r.kind));
    assert r.ip in before && before[r.ip := bucket].Keys == before.Keys;
    assert |before[r.ip := bucket]| == |before[r.ip := bucket].Keys| && |before| == |before.Keys|;
  }

  lemma OtherKind(l: Limiter, r: Request, kind: Kind)
    requires kind != r.kind
    ensures BucketsOf(Check(l, r).0, kind) == BucketsOf(l, kind)
  {
    hide After, Sweep;
  }

  /** Memory: after any run each map holds at most 1000 clients, or only such as were active in one minute. */
  lemma {:induction false} StaysSmall(rs: seq<Request>, start: int)
    requires Monotone(rs, start)
    ensures Small(FinalLimiter(NEW_LIMITER, rs), LastTime(rs, start))
    decreases |rs|
  {
    hide Check, AllRecent, Monotone;
    if rs != [] {
      var before, r := rs[..|rs| - 1], rs[|rs| - 1];
      assert rs == before + [r];
      MonotoneSnoc(before, r, start);
      LastBefore(before, r, start);
      StaysSmall(before, start);
      var l := FinalLimiter(NEW_LIMITER, before);
      var l' := Check(l, r).0;
      forall kind
        ensures |BucketsOf(l', kind)| <= 1000 || exists t :: t <= r.now && AllRecent(BucketsOf(l', kind), t)
      {
        if kind != r.kind {
          OtherKind(l, r, kind);
        } else if Check(l, r).1 {
          AcceptedSmall(l, r);
        } else {
          RejectedSmall(l, r, r.now);
          if t :| t <= LastTime(before, start) && AllRecent(BucketsOf(l, kind), t) {
            RejectedSmall(l, r, t);
          }
        }
      }
    }
  }

  function LastTime(rs: seq<Request>, start: int): int {
    if rs == [] then start else rs[|rs| - 1].now
  }

  lemma {:induction false} LastBefore(rs: seq<Request>, r: Request, start: int)
    requires Monotone(rs + [r], start)
    ensures LastTime(rs, start) <= r.now
    decreases |rs|
  {
    if rs == [] {
      assert ([] + [r])[0] == r;
    } else {
      assert (rs + [r])[0] == rs[0] && (rs + [r])[1..] == rs[1..] + [r];
      LastBefore(rs[1..], r, rs[0].now);
    }
  }
}
