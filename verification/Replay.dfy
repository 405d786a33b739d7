/**
  Replay protection of signed requests: a cache of accepted messages with an expiry time and periodic
  garbage collection. What it gives over whole runs, and exactly when it keeps a message from being
  accepted twice.
*/
module Replay {
  import opened Wrappers

  const TTL := 300
  const GC_INTERVAL := 60

  type Cache = map<string, int>

  datatype State = State(cache: Cache, lastGc: int)

  /** A request: its timestamp, nonce and signature headers, and the second at which it is verified. */
  datatype Request = Request(header: string, nonce: string, signature: string, now: int)

  /** Reading a number, and whether a signature header fits a message under the shared secret. */
  datatype World = World(parse: string -> Option<int>, fits: (string, string) -> bool)

  /** A number holds no bar and no dot. */
  ghost predicate Lawful(w: World) {
    forall text :: w.parse(text).Some? ==> IsHeader(text)
  }

  function Abs(x: int): int {
    if x < 0 then -x else x
  }

  function Gc(s: State, now: int): State {
    if now - s.lastGc < GC_INTERVAL then s
    else State(map k | k in s.cache && s.cache[k] > now :: s.cache[k], now)
  }

  predicate Live(cache: Cache, msg: string, now: int) {
    msg in cache && cache[msg] > now
  }

  /** The messages a signature may stand for: the timestamp alone, or joined to a nonce by a bar or a dot. */
  function Candidates(r: Request): seq<string> {
    [r.header] + if r.nonce == "" then [] else [r.header + "|" + r.nonce, r.header + "." + r.nonce]
  }

  function Matched(w: World, candidates: seq<string>, signature: string): Option<string> {
    if candidates == [] then None
    else if w.fits(candidates[0], signature) then Some(candidates[0])
    else Matched(w, candidates[1..], signature)
  }

  /** The message that a request in time is signed with, if any. */
  function MessageOf(w: World, r: Request, skew: int): Option<string> {
    if r.header == "" || r.signature == "" then None
    else match w.parse(r.header)
      case None => None
      case Some(ts) =>
        if Abs(r.now - ts) > skew then None else Matched(w, Candidates(r), r.signature)
  }

  /** The cache afterwards, and whether the request is accepted. */
  function Verify(w: World, s: State, r: Request, skew: int): (State, bool) {
    match MessageOf(w, r, skew)
    case None => (s, false)
    case Some(msg) =>
      var s' := Gc(s, r.now);
      if Live(s'.cache, msg, r.now) then (s', false)
      else (s'.(cache := s'.cache[msg := r.now + TTL]), true)
  }

  class ReplayGuard {
    const skewSecs: int
    var replayCache: Cache
    var lastGc: int

    constructor (skewSecs: int)
      ensures this.skewSecs == skewSecs && State(replayCache, lastGc) == State(map[], 0)
    {
      this.skewSecs := skewSecs;
      replayCache, lastGc := map[], 0;
    }

    method RunGc(now: int)
      modifies this
      ensures State(replayCache, lastGc) == Gc(old(State(replayCache, lastGc)), now)
    {
      if now - lastGc < GC_INTERVAL {
        return;
      }
      lastGc := now;
      var cache := replayCache;
      var expired := set k | k in cache && cache[k] <= now;
      replayCache := cache - expired;
      assert replayCache == map k | k in cache && cache[k] > now :: cache[k];
    }

    method VerifyHmac(w: World, r: Request) returns (ok: bool)
      modifies this
      ensures (State(replayCache, lastGc), ok) == Verify(w, old(State(replayCache, lastGc)), r, skewSecs)
    {
      if r.header == "" || r.signature == "" {
        return false;
      }
      var ts := w.parse(r.header);
      if ts.None? {
        return false;
      }
      if Abs(r.now - ts.value) > skewSecs {
        return false;
      }
      var candidates := [r.header];
      if r.nonce != "" {
        candidates := candidates + [r.header + "|" + r.nonce];
        candidates := candidates + [r.header + "." + r.nonce];
      }
      assert candidates == Candidates(r);
      var matched: Option<string> := None;
      for i := 0 to |candidates|
        invariant matched == None && Matched(w, candidates, r.signature) == Matched(w, candidates[i..], r.signature)
        invariant State(replayCache, lastGc) == old(State(replayCache, lastGc))
      {
        if w.fits(candidates[i], r.signature) {
          matched := Some(candidates[i]);
          break;
        }
      }
      if matched.None? {
        return false;
      }
      RunGc(r.now);
      if matched.value in replayCache && replayCache[matched.value] > r.now {
        return false;
      }
      replayCache := replayCache[matched.value := r.now + TTL];
      return true;
    }
  }

  // ---------------------------------------------------------------- the message determines the timestamp

  predicate IsHeader(ts: string) {
    '|' !in ts && '.' !in ts
  }

  /** The text before the first bar or dot. */
  function TimestampOf(msg: string): string {
    if msg == [] || msg[0] == '|' || msg[0] == '.' then [] else [msg[0]] + TimestampOf(msg[1..])
  }

  /** Every message that can be signed for a request names its timestamp header, whatever the style. */
  lemma {:induction false} MessageNamesTimestamp(ts: string, nonce: string)
    requires IsHeader(ts)
    ensures TimestampOf(ts) == ts && TimestampOf(ts + "|" + nonce) == ts && TimestampOf(ts + "." + nonce) == ts
  {
    if ts == [] {
      assert ts + "|" + nonce == "|" + nonce && ts + "." + nonce == "." + nonce;
    } else {
      assert IsHeader(ts[1..]);
      MessageNamesTimestamp(ts[1..], nonce);
      assert (ts + "|" + nonce)[1..] == ts[1..] + "|" + nonce;
      assert (ts + "." + nonce)[1..] == ts[1..] + "." + nonce;
    }
  }

  /** The time that a message names. */
  function TimeOf(w: World, msg: string): int {
    w.parse(TimestampOf(msg)).GetOr(0)
  }

  /** Whatever message a request is signed with, the time checked is the one the message names. */
  lemma MessageNamesTime(w: World, r: Request, skew: int)
    requires Lawful(w) && MessageOf(w, r, skew).Some?
    ensures var msg := MessageOf(w, r, skew).value;
            && TimestampOf(msg) == r.header && w.parse(r.header) == Some(TimeOf(w, msg))
            && TimeOf(w, msg) - skew <= r.now <= TimeOf(w, msg) + skew
  {
    var msg := MessageOf(w, r, skew).value;
    MatchedIsOne(w, Candidates(r), r.signature);
    assert IsHeader(r.header);
    MessageNamesTimestamp(r.header, r.nonce);
    assert r.header + "|" + r.nonce == r.header + ("|" + r.nonce);
  }

  lemma {:induction false} MatchedIsOne(w: World, candidates: seq<string>, signature: string)
    requires Matched(w, candidates, signature).Some?
    ensures Matched(w, candidates, signature).value in candidates
  {
    if !w.fits(candidates[0], signature) {
      MatchedIsOne(w, candidates[1..], signature);
    }
  }

  // ---------------------------------------------------------------- runs

  predicate Monotone(rs: seq<Request>, start: int)
    decreases |rs|
  {
    rs == [] || (start <= rs[0].now && Monotone(rs[1..], rs[0].now))
  }

  function Verdicts(w: World, s: State, rs: seq<Request>, skew: int): seq<bool>
    decreases |rs|
  {
    if rs == [] then []
    else
      var (s', ok) := Verify(w, s, rs[0], skew);
      [ok] + Verdicts(w, s', rs[1..], skew)
  }

  /** The times at which a message was accepted. */
  function Acceptances(w: World, s: State, rs: seq<Request>, msg: string, skew: int): seq<int>
    decreases |rs|
  {
    if rs == [] then []
    else
      var (s', ok) := Verify(w, s, rs[0], skew);
      (if ok && MessageOf(w, rs[0], skew) == Some(msg) then [rs[0].now] else [])
      + Acceptances(w, s', rs[1..], msg, skew)
  }

  // ---------------------------------------------------------------- collecting garbage is invisible

  /** Verification that never drops an entry. */
  function VerifyKeeping(w: World, cache: Cache, r: Request, skew: int): (Cache, bool) {
    match MessageOf(w, r, skew)
    case None => (cache, false)
    case Some(msg) =>
      if Live(cache, msg, r.now) then (cache, false) else (cache[msg := r.now + TTL], true)
  }

  function KeepingVerdicts(w: World, cache: Cache, rs: seq<Request>, skew: int): seq<bool>
    decreases |rs|
  {
    if rs == [] then []
    else
      var (cache', ok) := VerifyKeeping(w, cache, rs[0], skew);
      [ok] + KeepingVerdicts(w, cache', rs[1..], skew)
  }

  /** The caches agree on every entry that has not expired. */
  ghost predicate SameLive(a: Cache, b: Cache, now: int) {
    forall k :: (Live(a, k, now) <==> Live(b, k, now)) && (Live(a, k, now) ==> a[k] == b[k])
  }

  lemma SameLiveLater(a: Cache, b: Cache, now: int, now': int)
    requires SameLive(a, b, now) && now <= now'
    ensures SameLive(a, b, now')
  {
    forall k
      ensures (Live(a, k, now') <==> Live(b, k, now')) && (Live(a, k, now') ==> a[k] == b[k])
    {
      assert Live(a, k, now) <==> Live(b, k, now);
    }
  }

  lemma {:induction false} GcIsInvisible(w: World, s: State, cache: Cache, rs: seq<Request>, skew: int, start: int)
    requires SameLive(s.cache, cache, start) && Monotone(rs, start)
    ensures Verdicts(w, s, rs, skew) == KeepingVerdicts(w, cache, rs, skew)
    decreases |rs|
  {
    if rs != [] {
      var r := rs[0];
      SameLiveLater(s.cache, cache, start, r.now);
      var (s', ok) := Verify(w, s, r, skew);
      var (cache', ok') := VerifyKeeping(w, cache, r, skew);
      var msg := MessageOf(w, r, skew).GetOr("");
      assert Live(s.cache, msg, r.now) <==> Live(cache, msg, r.now);
      forall k
        ensures Live(s'.cache, k, r.now) <==> Live(cache', k, r.now)
        ensures Live(s'.cache, k, r.now) ==> s'.cache[k] == cache'[k]
      {
        assert Live(s.cache, k, r.now) <==> Live(cache, k, r.now);
      }
      GcIsInvisible(w, s', cache', rs[1..], skew, r.now);
    }
  }

  // ---------------------------------------------------------------- spacing

  /** What the cache knows about a message at `start`: it cannot be accepted again before its expiry. */
  predicate BlockedUntil(s: State, msg: string, start: int, until: int) {
    start < until ==> msg in s.cache && s.cache[msg] >= until
  }

  lemma VerifyBlocks(w: World, s: State, r: Request, skew: int, msg: string, start: int, until: int)
    requires BlockedUntil(s, msg, start, until) && start <= r.now
    ensures var (s', ok) := Verify(w, s, r, skew);
            var accepted := ok && MessageOf(w, r, skew) == Some(msg);
            && (accepted ==> r.now >= until && BlockedUntil(s', msg, r.now, r.now + TTL))
            && (!accepted ==> BlockedUntil(s', msg, r.now, until))
  {}

  /**
    Ascending times, the first not before `first`, each at least the TTL after the one before,
    the last not after `last`.
  */
  predicate SpacedOut(times: seq<int>, first: int, last: int)
    decreases |times|
  {
    times == [] || (first <= times[0] <= last && SpacedOut(times[1..], times[0] + TTL, last))
  }

  lemma {:induction false} AcceptancesSpaced(
    w: World, s: State, rs: seq<Request>, msg: string, skew: int, start: int, until: int)
    requires Lawful(w) && BlockedUntil(s, msg, start, until) && Monotone(rs, start)
    ensures var times := Acceptances(w, s, rs, msg, skew);
            && SpacedOut(times, until, TimeOf(w, msg) + skew)
            && forall t :: t in times ==> TimeOf(w, msg) - skew <= t <= TimeOf(w, msg) + skew
    decreases |rs|
  {
    hide Gc, MessageOf, TimeOf, Lawful;
    if rs != [] {
      var r := rs[0];
      var (s', ok) := Verify(w, s, r, skew);
      VerifyBlocks(w, s, r, skew, msg, start, until);
      var accepted := ok && MessageOf(w, r, skew) == Some(msg);
      AcceptancesSpaced(w, s', rs[1..], msg, skew, r.now, if accepted then r.now + TTL else until);
      var rest := Acceptances(w, s', rs[1..], msg, skew);
      if accepted {
        MessageNamesTime(w, r, skew);
        assert ([r.now] + rest)[1..] == rest;
      } else {
        assert [] + rest == rest;
      }
    }
  }

  /** Points at least the TTL apart within [first, last]: there are not many. */
  lemma {:induction false} SpacedCount(times: seq<int>, first: int, last: int)
    requires SpacedOut(times, first, last)
    ensures times != [] ==> first + (|times| - 1) * TTL <= last
    decreases |times|
  {
    if times != [] {
      SpacedCount(times[1..], times[0] + TTL, last);
    }
  }

  lemma {:induction false} SpacedRaise(times: seq<int>, first: int, first': int, last: int)
    requires SpacedOut(times, first, last) && (times != [] ==> first' <= times[0])
    ensures SpacedOut(times, first', last)
  {}

  /**
    Over any run, whatever else is requested and whenever garbage is collected: two acceptances of one signed
    message are at least 300 seconds apart, and there are at most floor(2 * skew / 300) + 1 of them.
  */
  lemma {:induction false} AcceptedAtMost(w: World, rs: seq<Request>, msg: string, skew: nat, start: int)
    requires Lawful(w) && Monotone(rs, start)
    ensures var times := Acceptances(w, State(map[], 0), rs, msg, skew);
            && |times| <= 2 * skew / TTL + 1
            && (forall i, j :: 0 <= i < j < |times| ==> times[j] - times[i] >= TTL)
  {
    hide Acceptances, Lawful, TimeOf;
    var times, ts := Acceptances(w, State(map[], 0), rs, msg, skew), TimeOf(w, msg);
    AcceptancesSpaced(w, State(map[], 0), rs, msg, skew, start, start);
    if times != [] {
      assert times[0] in times;
      SpacedRaise(times, start, ts - skew, ts + skew);
      SpacedCount(times, ts - skew, ts + skew);
      Quotient(|times| - 1, 2 * skew);
    }
    SpacedPairs(times, start, ts + skew);
  }

  lemma Quotient(n: nat, m: nat)
    requires n * TTL <= m
    ensures n <= m / TTL
  {}

  lemma {:induction false} SpacedPairs(times: seq<int>, first: int, last: int)
    requires SpacedOut(times, first, last)
    ensures forall i, j :: 0 <= i < j < |times| ==> times[j] - times[i] >= TTL
    ensures forall i :: 0 <= i < |times| ==> times[i] >= first
    decreases |times|
  {
    if times != [] {
      SpacedPairs(times[1..], times[0] + TTL, last);
      forall i, j | 0 <= i < j < |times|
        ensures times[j] - times[i] >= TTL
      {
        if i > 0 {
          assert times[1..][j - 1] - times[1..][i - 1] >= TTL;
        } else {
          assert times[1..][j - 1] >= times[0] + TTL;
        }
      }
    }
  }

  /** Garbage is collected once a minute at most, and is exactly what has expired. */
  lemma GcExactly(s: State, now: int)
    ensures var s' := Gc(s, now);
            if now < s.lastGc + 60 then s' == s
            else
              && s'.lastGc == now
              && (forall k :: k in s'.cache <==> k in s.cache && s.cache[k] > now)
              && (forall k :: k in s'.cache ==> s'.cache[k] == s.cache[k])
  {}

  // ---------------------------------------------------------------- what is accepted

  /** Exactly the messages that a request can be signed with, and which of them counts. */
  lemma {:induction false} StylesExactly(w: World, r: Request, skew: int)
    ensures var pipe, dot := r.header + "|" + r.nonce, r.header + "." + r.nonce;
            var inTime := && r.header != "" && r.signature != "" && w.parse(r.header).Some?
                          && -skew <= r.now - w.parse(r.header).value <= skew;
            MessageOf(w, r, skew) ==
            if !inTime then None
            else if w.fits(r.header, r.signature) then Some(r.header)
            else if r.nonce == "" then None
            else if w.fits(pipe, r.signature) then Some(pipe)
            else if w.fits(dot, r.signature) then Some(dot)
            else None
  {
    var pipe, dot := r.header + "|" + r.nonce, r.header + "." + r.nonce;
    assert [dot][1..] == [] && [pipe, dot][1..] == [dot] && [r.header, pipe, dot][1..] == [pipe, dot];
    assert Matched(w, [dot], r.signature) == if w.fits(dot, r.signature) then Some(dot) else None;
    assert Matched(w, [pipe, dot], r.signature) ==
           if w.fits(pipe, r.signature) then Some(pipe) else Matched(w, [dot], r.signature);
    assert [r.header] + [] == [r.header] && [r.header][1..] == [];
    if r.nonce == "" {
      assert Candidates(r) == [r.header];
      assert Matched(w, [r.header], r.signature) == if w.fits(r.header, r.signature) then Some(r.header) else None;
    } else {
      assert Candidates(r) == [r.header, pipe, dot];
      assert Matched(w, [r.header, pipe, dot], r.signature) ==
             if w.fits(r.header, r.signature) then Some(r.header) else Matched(w, [pipe, dot], r.signature);
    }
  }

  /** The cache holds for each message the end of its last acceptance, or has forgotten it in time. */
  predicate Keeps(s: State, w: World, rs: seq<Request>, msg: string, skew: int, now: int) {
    var times := Acceptances(w, State(map[], 0), rs, msg, skew);
    && (forall t :: t in times ==> t <= now && (t + 300 > now ==> msg in s.cache && s.cache[msg] >= t + 300))
    && (msg in s.cache ==> exists t :: t in times && s.cache[msg] == t + 300)
  }

  function StateAfter(w: World, s: State, rs: seq<Request>, skew: int): State
    decreases |rs|
  {
    if rs == [] then s else StateAfter(w, Verify(w, s, rs[0], skew).0, rs[1..], skew)
  }

  lemma {:induction false} OneMore(w: World, s: State, rs: seq<Request>, r: Request, msg: string, skew: int)
    ensures var (s', ok) := Verify(w, StateAfter(w, s, rs, skew), r, skew);
            && StateAfter(w, s, rs + [r], skew) == s'
            && Verdicts(w, s, rs + [r], skew) == Verdicts(w, s, rs, skew) + [ok]
            && Acceptances(w, s, rs + [r], msg, skew) ==
               Acceptances(w, s, rs, msg, skew) + if ok && MessageOf(w, r, skew) == Some(msg) then [r.now] else []
    decreases |rs|
  {
    hide Verify, MessageOf;
    if rs == [] {
      assert [] + [r] == [r] && [r][1..] == [];
      assert Acceptances(w, Verify(w, s, r, skew).0, [], msg, skew) == [];
    } else {
      assert (rs + [r])[1..] == rs[1..] + [r] && (rs + [r])[0] == rs[0];
      OneMore(w, Verify(w, s, rs[0], skew).0, rs[1..], r, msg, skew);
    }
  }

  lemma {:induction false} KeepsOne(w: World, s: State, rs: seq<Request>, r: Request, msg: string, skew: int, now: int)
    requires s == StateAfter(w, State(map[], 0), rs, skew) && Keeps(s, w, rs, msg, skew, now) && now <= r.now
    ensures Keeps(Verify(w, s, r, skew).0, w, rs + [r], msg, skew, r.now)
  {
    hide MessageOf, Acceptances;
    OneMore(w, State(map[], 0), rs, r, msg, skew);
    var before := Acceptances(w, State(map[], 0), rs, msg, skew);
    var after := Acceptances(w, State(map[], 0), rs + [r], msg, skew);
    assert before + [] == before;
    assert forall t :: t in before ==> t in after;
    var (s', ok) := Verify(w, s, r, skew);
    if ok && MessageOf(w, r, skew) == Some(msg) {
      assert r.now in after;
    }
  }

  lemma {:induction false} KeepsAlways(w: World, rs: seq<Request>, msg: string, skew: int, start: int)
    requires Monotone(rs, start)
    ensures Keeps(StateAfter(w, State(map[], 0), rs, skew), w, rs, msg, skew, LastTime(rs, start))
    decreases |rs|
  {
    hide Keeps, Verify;
    if rs == [] {
      KeepsNothing(w, msg, skew, start);
    } else {
      var before, r := rs[..|rs| - 1], rs[|rs| - 1];
      assert rs == before + [r];
      MonotoneSnoc(before, r, start);
      KeepsAlways(w, before, msg, skew, start);
      OneMore(w, State(map[], 0), before, r, msg, skew);
      KeepsOne(w, StateAfter(w, State(map[], 0), before, skew), before, r, msg, skew, LastTime(before, start));
    }
  }

  function LastTime(rs: seq<Request>, start: int): int {
    if rs == [] then start else rs[|rs| - 1].now
  }

  lemma {:induction false} KeepsNothing(w: World, msg: string, skew: int, start: int)
    ensures Keeps(StateAfter(w, State(map[], 0), [], skew), w, [], msg, skew, start)
  {}

  lemma {:induction false} MonotoneSnoc(rs: seq<Request>, r: Request, start: int)
    requires Monotone(rs + [r], start)
    ensures Monotone(rs, start) && LastTime(rs, start) <= r.now
    decreases |rs|
  {
    if rs == [] {
      assert ([] + [r])[0] == r;
    } else {
      assert (rs + [r])[0] == rs[0] && (rs + [r])[1..] == rs[1..] + [r];
      MonotoneSnoc(rs[1..], r, rs[0].now);
    }
  }

  /**
    Exactly what is accepted, after any run: a request in time that is signed with a message which was not accepted in
    the 300 seconds before.
  */
  lemma {:induction false} AcceptedExactly(w: World, rs: seq<Request>, r: Request, skew: int, start: int)
    requires Monotone(rs + [r], start)
    ensures var verdicts := Verdicts(w, State(map[], 0), rs + [r], skew);
            && |verdicts| == |rs| + 1
            && (verdicts[|rs|] <==>
                  && MessageOf(w, r, skew).Some?
                  && forall t :: t in Acceptances(w, State(map[], 0), rs, MessageOf(w, r, skew).value, skew) ==>
                                   t + 300 <= r.now)
  {
    hide MessageOf, Acceptances;
    var s := StateAfter(w, State(map[], 0), rs, skew);
    MonotoneSnoc(rs, r, start);
    OneMore(w, State(map[], 0), rs, r, "", skew);
    VerdictCount(w, State(map[], 0), rs, skew);
    if MessageOf(w, r, skew).Some? {
      var msg := MessageOf(w, r, skew).value;
      KeepsAlways(w, rs, msg, skew, start);
      var times := Acceptances(w, State(map[], 0), rs, msg, skew);
      assert Live(Gc(s, r.now).cache, msg, r.now) <==> msg in s.cache && s.cache[msg] > r.now;
      if t :| t in times && t + 300 > r.now {
        assert t + 300 > LastTime(rs, start);
      }
    }
  }

  lemma {:induction false} VerdictCount(w: World, s: State, rs: seq<Request>, skew: int)
    ensures |Verdicts(w, s, rs, skew)| == |rs|
    decreases |rs|
  {
    hide Verify;
    if rs != [] {
      VerdictCount(w, Verify(w, s, rs[0], skew).0, rs[1..], skew);
    }
  }

  // ---------------------------------------------------------------- how often a message really is accepted

  /** A request presented again every 300 seconds, `from` times 300 seconds after it is first in time. */
  function Replays(w: World, r: Request, skew: int, from: nat, n: nat): seq<Request> {
    seq(n, i => r.(now := w.parse(r.header).GetOr(0) - skew + (from + i) * TTL))
  }

  /** A request that is well-formed and signed with the message. */
  predicate Signed(w: World, r: Request, msg: string) {
    && r.header != "" && r.signature != "" && w.parse(r.header).Some?
    && Matched(w, Candidates(r), r.signature) == Some(msg)
  }

  lemma {:induction false} ReplaysAccepted(
    w: World, s: State, r: Request, msg: string, skew: nat, from: nat, n: nat)
    requires Signed(w, r, msg) && (n >= 1 ==> (from + n - 1) * TTL <= 2 * skew)
    requires msg in s.cache ==> s.cache[msg] <= w.parse(r.header).value - skew + from * TTL
    ensures |Acceptances(w, s, Replays(w, r, skew, from, n), msg, skew)| == n
    decreases n
  {
    hide Matched, Candidates;
    if n > 0 {
      var rs := Replays(w, r, skew, from, n);
      var (s', ok) := Verify(w, s, rs[0], skew);
      assert rs[0].now - w.parse(r.header).value == from * TTL - skew;
      SameCandidates(r, rs[0].now);
      assert ok && MessageOf(w, rs[0], skew) == Some(msg);
      assert rs[1..] == Replays(w, r, skew, from + 1, n - 1);
      ReplaysAccepted(w, s', r, msg, skew, from + 1, n - 1);
    }
  }

  lemma SameCandidates(r: Request, now: int)
    ensures Candidates(r.(now := now)) == Candidates(r)
  {}

  /** The bound is reached: with the default skew of 300 seconds a captured request is accepted three times. */
  lemma BoundIsReached(w: World, r: Request, msg: string, skew: nat)
    requires Signed(w, r, msg)
    ensures var n := 2 * skew / TTL + 1;
            |Acceptances(w, State(map[], 0), Replays(w, r, skew, 0, n), msg, skew)| == n
    ensures skew == 300 ==> 2 * skew / TTL + 1 == 3
  {
    ReplaysAccepted(w, State(map[], 0), r, msg, skew, 0, 2 * skew / TTL + 1);
  }

  /** No run accepts the message more than once. */
  ghost predicate NeverTwice(w: World, msg: string, skew: int) {
    forall rs, start :: Monotone(rs, start) ==> AtMostOne(w, rs, msg, skew)
  }

  predicate AtMostOne(w: World, rs: seq<Request>, msg: string, skew: int) {
    |Acceptances(w, State(map[], 0), rs, msg, skew)| <= 1
  }

  /**
    No replay of a message that some request can be signed with is ever accepted, exactly if the skew allowed is less
    than half the time an entry is kept.
  */
  lemma NoReplayExactly(w: World, skew: nat, msg: string)
    requires Lawful(w)
    ensures NeverTwice(w, msg, skew) <==> 2 * skew < TTL || !exists r :: Signed(w, r, msg)
  {
    hide Acceptances, Lawful, Signed;
    if 2 * skew < TTL {
      forall rs, start | Monotone(rs, start)
        ensures AtMostOne(w, rs, msg, skew)
      {
        AcceptedAtMost(w, rs, msg, skew, start);
      }
    } else if r :| Signed(w, r, msg) {
      var n := 2 * skew / TTL + 1;
      var rs := Replays(w, r, skew, 0, n);
      BoundIsReached(w, r, msg, skew);
      Quotient(1, 2 * skew);
      assert !AtMostOne(w, rs, msg, skew);
      ReplaysMonotone(w, r, skew, 0, n);
    } else {
      forall rs, start | Monotone(rs, start)
        ensures AtMostOne(w, rs, msg, skew)
      {
        UnsignedRefused(w, State(map[], 0), rs, msg, skew);
      }
    }
  }

  lemma {:induction false} UnsignedRefused(w: World, s: State, rs: seq<Request>, msg: string, skew: int)
    requires !exists r :: Signed(w, r, msg)
    ensures Acceptances(w, s, rs, msg, skew) == []
    decreases |rs|
  {
    hide Gc, Matched, Candidates;
    if rs != [] {
      assert !Signed(w, rs[0], msg);
      UnsignedRefused(w, Verify(w, s, rs[0], skew).0, rs[1..], msg, skew);
    }
  }

  lemma {:induction false} ReplaysMonotone(w: World, r: Request, skew: nat, from: nat, n: nat)
    ensures Monotone(Replays(w, r, skew, from, n), w.parse(r.header).GetOr(0) - skew + from * TTL)
    decreases n
  {
    if n > 0 {
      ReplaysMonotone(w, r, skew, from + 1, n - 1);
      var rs, rest := Replays(w, r, skew, from, n), Replays(w, r, skew, from + 1, n - 1);
      assert rs[1..] == rest;
      MonotoneEarlier(rest, w.parse(r.header).GetOr(0) - skew + (from + 1) * TTL, rs[0].now);
    }
  }

  lemma {:induction false} MonotoneEarlier(rs: seq<Request>, start: int, start': int)
    requires Monotone(rs, start) && start' <= start
    ensures Monotone(rs, start')
  {}
}
