/** OpenSearchBulkShipper: judging the server's answer, and the loop that ships, acknowledges or backs off. */
module Shipper {
  import opened Powers
  import opened Wrappers
  import opened Lines
  import opened Queue
  import opened SegmentReader
  import opened QueueReader

  // ---------------------------------------------------------------- the server's answer

  /** The answer to one operation: its status, and whether it carries an error object. */
  datatype Op = Op(status: int, error: bool)

  /** The body of an answer. `errors` is true only if the field is there and literally true. */
  datatype Body = Blank | NotJson | Json(errors: bool, items: seq<seq<Op>>)

  datatype Answer = Failed /* no answer at all */ | Answer(httpOk: bool, body: Body)

  datatype BulkResult = BulkResult(succeeded: nat, permanent: nat, transient: nat)

  predicate Retryable(status: int) {
    status == 429 || status >= 500
  }

  /** An operation the server may take when it is sent again. */
  predicate Transient(op: Op) {
    Retryable(op.status)
  }

  /** An operation the server will never take. */
  predicate Permanent(op: Op) {
    !Retryable(op.status) && (op.error || op.status >= 400)
  }

  function Count(ops: seq<Op>, p: Op -> bool): nat {
    if ops == [] then 0 else (if p(ops[0]) then 1 else 0) + Count(ops[1..], p)
  }

  function AllOps(items: seq<seq<Op>>): seq<Op> {
    if items == [] then [] else items[0] + AllOps(items[1..])
  }

  lemma {:induction false} CountOfConcat(a: seq<Op>, b: seq<Op>, p: Op -> bool)
    ensures Count(a + b, p) == Count(a, p) + Count(b, p)
  {
    if a == [] {
      assert a + b == b;
    } else {
      assert (a + b)[1..] == a[1..] + b;
      CountOfConcat(a[1..], b, p);
    }
  }

  lemma {:induction false} CountNone(ops: seq<Op>, p: Op -> bool)
    ensures Count(ops, p) == 0 <==> forall op :: op in ops ==> !p(op)
  {
    if ops != [] {
      CountNone(ops[1..], p);
      assert ops == [ops[0]] + ops[1..];
    }
  }

  function Places(ops: seq<Op>, p: Op -> bool): set<int> {
    set i | 0 <= i < |ops| && p(ops[i])
  }

  /** Counting is counting places. */
  lemma {:induction false} CountPlaces(ops: seq<Op>, p: Op -> bool)
    ensures Count(ops, p) == |Places(ops, p)|
  {
    if ops == [] {
      assert Places(ops, p) == {};
    } else {
      var last := |ops| - 1;
      CountPlaces(ops[..last], p);
      CountOfConcat(ops[..last], [ops[last]], p);
      assert ops == ops[..last] + [ops[last]] && [ops[last]][1..] == [];
      assert Count([ops[last]], p) == if p(ops[last]) then 1 else 0;
      assert Places(ops, p) == Places(ops[..last], p) + if p(ops[last]) then {last} else {};
    }
  }

  /** In terms of the status alone: 429 and everything from 500 on is transient, other failures are permanent. */
  lemma StatusDecides(op: Op)
    ensures Transient(op) <==> op.status == 429 || op.status >= 500
    ensures Permanent(op) <==> (op.error || op.status >= 400) && op.status != 429 && op.status < 500
  {}

  lemma {:induction false} AllOpsSnoc(items: seq<seq<Op>>, item: seq<Op>)
    ensures AllOps(items + [item]) == AllOps(items) + item
  {
    if items == [] {
    } else {
      assert (items + [item])[1..] == items[1..] + [item];
      AllOpsSnoc(items[1..], item);
    }
  }

  /**
    Each operation of the answer is counted once: as transient with status 429 or 500 and above, as permanent if it
    failed in another way, else as succeeded.
  */
  method ParseBulkResponse(body: Body) returns (result: BulkResult)
    ensures body.Blank? || body.NotJson? ==> result == BulkResult(0, 0, 1)
    ensures body.Json? && !body.errors ==> result == BulkResult(0, 0, 0)
    ensures body.Json? && body.errors ==>
              var ops := AllOps(body.items);
              && result.transient == |set i | 0 <= i < |ops| && (ops[i].status == 429 || ops[i].status >= 500)|
              && result.permanent == |set i | 0 <= i < |ops| && (ops[i].error || ops[i].status >= 400)
                                             && ops[i].status != 429 && ops[i].status < 500|
              && result.succeeded + result.permanent + result.transient == |ops|
    ensures body.Json? && body.errors ==>
              (result.transient > 0 <==>
                 exists op :: op in AllOps(body.items) && (op.status == 429 || op.status >= 500))
  {
    if body.Blank? || body.NotJson? {
      return BulkResult(0, 0, 1);
    }
    if !body.errors {
      return BulkResult(0, 0, 0);
    }
    var succeeded, permanent, transient := 0, 0, 0;
    ghost var seen: seq<Op> := [];
    for i := 0 to |body.items|
      invariant seen == AllOps(body.items[..i])
      invariant transient == Count(seen, Transient) && permanent == Count(seen, Permanent)
      invariant succeeded + permanent + transient == |seen| && succeeded >= 0
    {
      var item := body.items[i];
      ghost var before := seen;
      assert before + item[..0] == before;
      for k := 0 to |item|
        invariant seen == before + item[..k]
        invariant transient == Count(seen, Transient) && permanent == Count(seen, Permanent)
        invariant succeeded + permanent + transient == |seen| && succeeded >= 0
      {
        var op := item[k];
        if op.error {
          if op.status == 429 || op.status >= 500 {
            transient := transient + 1;
          } else {
            permanent := permanent + 1;
          }
        } else if 200 <= op.status < 300 {
          succeeded := succeeded + 1;
        } else if op.status >= 400 {
          if op.status == 429 || op.status >= 500 {
            transient := transient + 1;
          } else {
            permanent := permanent + 1;
          }
        } else {
          succeeded := succeeded + 1;
        }
        CountOfConcat(seen, [op], Transient);
        CountOfConcat(seen, [op], Permanent);
        seen := seen + [op];
        assert item[..k + 1] == item[..k] + [op];
      }
      assert item[..|item|] == item;
      assert body.items[..i + 1] == body.items[..i] + [item];
      AllOpsSnoc(body.items[..i], item);
    }
    assert body.items[..|body.items|] == body.items;
    result := BulkResult(succeeded, permanent, transient);
    CountsByStatus(seen);
  }

  lemma {:induction false} CountsByStatus(ops: seq<Op>)
    ensures Count(ops, Transient) == |set i | 0 <= i < |ops| && (ops[i].status == 429 || ops[i].status >= 500)|
    ensures Count(ops, Permanent) == |set i | 0 <= i < |ops| && (ops[i].error || ops[i].status >= 400)
                                             && ops[i].status != 429 && ops[i].status < 500|
    ensures Count(ops, Transient) > 0 <==> exists op :: op in ops && (op.status == 429 || op.status >= 500)
  {
    CountPlaces(ops, Transient);
    CountPlaces(ops, Permanent);
    CountNone(ops, Transient);
    assert Places(ops, Transient) == set i | 0 <= i < |ops| && (ops[i].status == 429 || ops[i].status >= 500);
    assert Places(ops, Permanent) ==
           set i | 0 <= i < |ops| && (ops[i].error || ops[i].status >= 400) && ops[i].status != 429
                   && ops[i].status < 500;
  }

  /** The server took the batch exactly if nothing in its answer asks to send anything again. */
  lemma TakenExactly(answer: Answer)
    ensures Taken(answer) <==>
            && answer.Answer? && answer.httpOk && answer.body.Json?
            && (answer.body.errors ==>
                  forall op :: op in AllOps(answer.body.items) ==> op.status != 429 && op.status < 500)
  {
    hide AllOps;
  }

  /** The server has dealt with the batch: nothing in it is worth sending again. */
  predicate Taken(answer: Answer) {
    && answer.Answer? && answer.httpOk
    && answer.body.Json?
    && (answer.body.errors ==> forall op :: op in AllOps(answer.body.items) ==> !Transient(op))
  }

  // ---------------------------------------------------------------- backing off

  function Min(a: int, b: int): int {
    if a < b then a else b
  }

  /** The delay after the n-th failure in a row. */
  function Backoff(failureCount: int, initialMs: int, maxMs: int): int {
    var initial := if initialMs <= 0 then 1000 else initialMs;
    var max := if maxMs <= 0 then 60000 else maxMs;
    var factor := if failureCount - 1 < 0 then 0 else failureCount - 1;
    Min(initial * Pow2(factor), max)
  }

  /** The first delay is the initial one, each further delay is twice the one before, and none exceeds the cap. */
  lemma BackoffGrows(n: nat, initialMs: int, maxMs: int)
    requires n >= 1
    ensures var first, cap := if initialMs <= 0 then 1000 else initialMs, if maxMs <= 0 then 60000 else maxMs;
            var now, next := Backoff(n, initialMs, maxMs), Backoff(n + 1, initialMs, maxMs);
            && Backoff(1, initialMs, maxMs) == (if first < cap then first else cap)
            && 0 < now <= next <= cap
            && next == if 2 * now < cap then 2 * now else cap
  {
    var initial := if initialMs <= 0 then 1000 else initialMs;
    Pow2Positive(n - 1);
    assert Pow2(0) == 1;
    assert Pow2(n) == 2 * Pow2(n - 1);
    assert initial * Pow2(n) == 2 * (initial * Pow2(n - 1));
    assert initial * Pow2(n - 1) > 0;
  }

  // ---------------------------------------------------------------- the loop

  datatype Verdict = NothingRead | Retry | Acked

  /** How often shipping has failed since the last success; rounds that read nothing do not count. */
  function FailuresInARow(verdicts: seq<Verdict>): nat {
    if verdicts == [] then 0
    else
      match verdicts[|verdicts| - 1]
      case NothingRead => FailuresInARow(verdicts[..|verdicts| - 1])
      case Retry => FailuresInARow(verdicts[..|verdicts| - 1]) + 1
      case Acked => 0
  }

  /** What one pass of the loop did: to the reader, to the directory (together with other threads), and why. */
  datatype PassTrace = PassTrace(
    start: Reader, startSpool: Spool,     // when the pass began
    snap: Spool, batch: seq<Bytes>,       // the directory when the read took effect, and what it handed over
    read: Reader, readSpool: Spool,       // after the read
    faults: Faults, answer: Answer, verdict: Verdict,
    listing: Spool, gone: set<nat>,       // the listing for deletion, and what was deleted
    end: Reader, endSpool: Spool)

  /** The batch and the reader are those of a read at `snap`, unless the chosen segment could not be read. */
  ghost predicate WasRead(t: PassTrace, maxEvents: int, maxBytes: int, parses: Bytes -> bool) {
    var step := Queue.Read(t.start, t.snap, maxEvents, maxBytes, parses);
    && Evolves(t.startSpool, t.snap)
    && if Unreadable(t.start, t.snap, maxEvents, maxBytes, t.faults) then
         t.batch == [] && t.read == ReadFails(t.start, t.snap) && Evolves(t.snap, t.readSpool)
       else if step.poisoned.Some? && !t.faults.move then
         && t.batch == step.events && t.read == Forget(step.reader, step.poisoned.value)
         && exists before :: MovedAway(t.snap, before, step.poisoned.value, t.readSpool)
       else
         t.batch == step.events && t.read == step.reader && Evolves(t.snap, t.readSpool)
  }

  /** The segment was moved away when the directory was as in `before`. */
  ghost predicate MovedAway(snap: Spool, before: Spool, name: nat, after: Spool) {
    && Evolves(snap, before)
    && IndexOf(before, name) < |before| && after == Without(before, IndexOf(before, name))
  }

  /** The batch was committed and all old segments were swept, if the reader still held a batch of that size. */
  ghost predicate WasAcknowledged(before: Reader, spool: Spool, count: nat, stuck: set<nat>, listing: Spool,
                                  gone: set<nat>, after: Reader, afterSpool: Spool) {
    if Commits(before, count) then
      && Evolves(spool, listing) && gone == Cleared(listing, |listing|, Commit(before, count).offsets, stuck)
      && after == Swept(Commit(before, count), gone) && Evolves(Keep(listing, gone), afterSpool)
    else after == before && afterSpool == spool
  }

  /** A batch is acknowledged exactly if the server took it; otherwise nothing is committed or deleted. */
  ghost predicate PassOk(t: PassTrace, maxEvents: int, maxBytes: int, parses: Bytes -> bool) {
    && WasRead(t, maxEvents, maxBytes, parses)
    && t.verdict == (if t.batch == [] then NothingRead else if Taken(t.answer) then Acked else Retry)
    && if t.verdict == Acked then
         WasAcknowledged(t.read, t.readSpool, |t.batch|, t.faults.stuck, t.listing, t.gone, t.end, t.endSpool)
       else t.end == t.read && t.endSpool == t.readSpool
  }

  /** Each pass goes on where the one before ended. */
  predicate Consecutive(trace: seq<PassTrace>) {
    forall i :: 0 < i < |trace| ==> trace[i].start == trace[i - 1].end && trace[i].startSpool == trace[i - 1].endSpool
  }

  function VerdictsOf(trace: seq<PassTrace>): seq<Verdict> {
    seq(|trace|, i requires 0 <= i < |trace| => trace[i].verdict)
  }

  class OpenSearchBulkShipper {
    const queueReader: FileQueueReader
    const batchSizeEvents: int
    const batchSizeBytes: int
    const initialBackoffMs: int
    const maxBackoffMs: int

    constructor (queueReader: FileQueueReader, batchSizeEvents: int, batchSizeBytes: int,
                 initialBackoffMs: int, maxBackoffMs: int)
      ensures this.queueReader == queueReader
      ensures this.batchSizeEvents == batchSizeEvents && this.batchSizeBytes == batchSizeBytes
      ensures this.initialBackoffMs == initialBackoffMs && this.maxBackoffMs == maxBackoffMs
    {
      this.queueReader := queueReader;
      this.batchSizeEvents, this.batchSizeBytes := batchSizeEvents, batchSizeBytes;
      this.initialBackoffMs, this.maxBackoffMs := initialBackoffMs, maxBackoffMs;
    }

    /** One pass of the loop with the answer the server would give. */
    method Pass(dir: Directory, parses: Bytes -> bool, answer: Answer, faults: Faults, failureCount: nat)
      returns (failures: nat, delayMs: int, ghost t: PassTrace)
      requires Sorted(dir.spool)
      modifies queueReader, dir`spool, dir`bad
      ensures Sorted(dir.spool) && PassOk(t, batchSizeEvents, batchSizeBytes, parses)
      ensures t.start == old(queueReader.State()) && t.startSpool == old(dir.spool)
      ensures t.answer == answer && t.faults == faults
      ensures t.end == queueReader.State() && t.endSpool == dir.spool
      ensures t.verdict == NothingRead <==> t.batch == []
      ensures t.verdict == Acked <==>
                && t.batch != [] && answer.Answer? && answer.httpOk && answer.body.Json?
                && (answer.body.errors ==>
                      forall op :: op in AllOps(answer.body.items) ==> op.status != 429 && op.status < 500)
      ensures t.verdict == NothingRead ==> failures == failureCount
      ensures t.verdict == Retry ==> failures == failureCount + 1
      ensures t.verdict == Acked ==> failures == 0
      ensures t.verdict == Retry ==> delayMs == Backoff(failures, initialBackoffMs, maxBackoffMs)
    {
      hide Queue.Read, Evolves, Sorted, Keep, Without, IndexOf, Unreadable, WasRead, WasAcknowledged, Taken, AllOps;
      ghost var start, startSpool := queueReader.State(), dir.spool;
      delayMs := 0;
      TakenExactly(answer);
      var batch;
      ghost var moved, snap, before;
      batch, moved, snap, before := queueReader.ReadBatch(dir, batchSizeEvents, batchSizeBytes, parses, faults);
      StillSorted(snap, before, dir.spool, moved);
      t := PassTrace(start, startSpool, snap, batch, queueReader.State(), dir.spool, faults, answer, NothingRead,
                     dir.spool, {}, queueReader.State(), dir.spool);
      ReadTraced(t, moved, before, batchSizeEvents, batchSizeBytes, parses);
      if |batch| == 0 {
        return failureCount, 0, t;
      }
      if answer.Failed? || !answer.httpOk {
        t := t.(verdict := Retry);
        OnlyVerdict(t, batchSizeEvents, batchSizeBytes, parses);
        return failureCount + 1, Backoff(failureCount + 1, initialBackoffMs, maxBackoffMs), t;
      }
      var result := ParseBulkResponse(answer.body);
      ghost var listing, gone;
      if result.permanent > 0 && result.transient == 0 {
        failures := 0;
        listing, gone := AcknowledgeBatch(dir, |batch|, faults.stuck);
      } else if result.transient > 0 {
        t := t.(verdict := Retry);
        OnlyVerdict(t, batchSizeEvents, batchSizeBytes, parses);
        return failureCount + 1, Backoff(failureCount + 1, initialBackoffMs, maxBackoffMs), t;
      } else {
        failures := 0;
        listing, gone := AcknowledgeBatch(dir, |batch|, faults.stuck);
      }
      t := t.(verdict := Acked, listing := listing, gone := gone, end := queueReader.State(), endSpool := dir.spool);
      OnlyVerdict(t, batchSizeEvents, batchSizeBytes, parses);
    }

    method AcknowledgeBatch(dir: Directory, count: nat, stuck: set<nat>)
      returns (ghost listing: Spool, ghost gone: set<nat>)
      requires Sorted(dir.spool)
      modifies queueReader, dir`spool
      ensures Sorted(dir.spool)
      ensures WasAcknowledged(old(queueReader.State()), old(dir.spool), count, stuck, listing, gone,
                              queueReader.State(), dir.spool)
    {
      hide Evolves, Keep, Sorted, Cleared;
      ghost var before := queueReader.State();
      listing, gone := queueReader.Acknowledge(dir, count, stuck);
      if Commits(before, count) {
        EvolvesSorted(Keep(listing, gone), dir.spool);
      }
    }

    /** The loop over a sequence of answers and faults; the trace says what each pass did. */
    method Run(dir: Directory, parses: Bytes -> bool, answers: seq<Answer>, faults: seq<Faults>)
      returns (failures: nat, ghost trace: seq<PassTrace>)
      requires Sorted(dir.spool) && |faults| == |answers|
      modifies queueReader, dir`spool, dir`bad
      ensures Traced(trace, answers, faults, batchSizeEvents, batchSizeBytes, parses)
      ensures Connects(trace, old(queueReader.State()), old(dir.spool), queueReader.State(), dir.spool)
      ensures failures == FailuresInARow(VerdictsOf(trace))
    {
      hide Sorted, PassOk, Traced, Connects, VerdictsOf, FailuresInARow;
      failures, trace := 0, [];
      EmptyTrace(queueReader.State(), dir.spool, batchSizeEvents, batchSizeBytes, parses);
      for i := 0 to |answers|
        invariant Sorted(dir.spool)
        invariant Traced(trace, answers[..i], faults[..i], batchSizeEvents, batchSizeBytes, parses)
        invariant Connects(trace, old(queueReader.State()), old(dir.spool), queueReader.State(), dir.spool)
        invariant failures == FailuresInARow(VerdictsOf(trace))
      {
        var delayMs;
        ghost var t;
        failures, delayMs, t := Pass(dir, parses, answers[i], faults[i], failures);
        OneMorePass(trace, t, answers[..i], faults[..i], batchSizeEvents, batchSizeBytes, parses);
        OneMoreConnects(trace, t, old(queueReader.State()), old(dir.spool));
        OneMoreFailure(trace, t);
        assert answers[..i + 1] == answers[..i] + [answers[i]] && faults[..i + 1] == faults[..i] + [faults[i]];
        trace := trace + [t];
      }
      assert answers[..|answers|] == answers && faults[..|faults|] == faults;
    }
  }

  /** One pass for each answer, each as it should be. */
  ghost predicate Traced(trace: seq<PassTrace>, answers: seq<Answer>, faults: seq<Faults>, maxEvents: int,
                         maxBytes: int, parses: Bytes -> bool) {
    && |trace| == |answers| == |faults|
    && forall i :: 0 <= i < |answers| ==>
         && trace[i].answer == answers[i] && trace[i].faults == faults[i]
         && PassOk(trace[i], maxEvents, maxBytes, parses)
  }

  /** The trace begins and ends there, and each pass goes on where the one before ended. */
  predicate Connects(trace: seq<PassTrace>, start: Reader, startSpool: Spool, end: Reader, endSpool: Spool) {
    && Consecutive(trace)
    && if trace == [] then start == end && startSpool == endSpool
       else
         && trace[0].start == start && trace[0].startSpool == startSpool
         && trace[|trace| - 1].end == end && trace[|trace| - 1].endSpool == endSpool
  }

  lemma EmptyTrace(start: Reader, spool: Spool, maxEvents: int, maxBytes: int, parses: Bytes -> bool)
    ensures Traced([], [], [], maxEvents, maxBytes, parses) && Connects([], start, spool, start, spool)
    ensures FailuresInARow(VerdictsOf([])) == 0
  {}

  lemma OneMorePass(trace: seq<PassTrace>, t: PassTrace, answers: seq<Answer>, faults: seq<Faults>, maxEvents: int,
                    maxBytes: int, parses: Bytes -> bool)
    requires Traced(trace, answers, faults, maxEvents, maxBytes, parses) && PassOk(t, maxEvents, maxBytes, parses)
    ensures Traced(trace + [t], answers + [t.answer], faults + [t.faults], maxEvents, maxBytes, parses)
  {
    hide PassOk;
  }

  lemma OneMoreConnects(trace: seq<PassTrace>, t: PassTrace, start: Reader, startSpool: Spool)
    requires Connects(trace, start, startSpool, t.start, t.startSpool)
    ensures Connects(trace + [t], start, startSpool, t.end, t.endSpool)
  {}

  lemma OneMoreFailure(trace: seq<PassTrace>, t: PassTrace)
    ensures var before := FailuresInARow(VerdictsOf(trace));
            FailuresInARow(VerdictsOf(trace + [t])) ==
            match t.verdict case NothingRead => before case Retry => before + 1 case Acked => 0
  {
    OneMoreVerdict(trace, t);
  }

  lemma OneMoreVerdict(trace: seq<PassTrace>, t: PassTrace)
    ensures VerdictsOf(trace + [t]) == VerdictsOf(trace) + [t.verdict]
    ensures (VerdictsOf(trace) + [t.verdict])[..|trace|] == VerdictsOf(trace)
  {}

  lemma ReadTraced(t: PassTrace, moved: bool, before: Spool, maxEvents: int, maxBytes: int, parses: Bytes -> bool)
    requires Evolves(t.startSpool, t.snap) && Evolves(t.snap, before)
    requires Unreadable(t.start, t.snap, maxEvents, maxBytes, t.faults) ==>
               t.batch == [] && !moved && t.read == ReadFails(t.start, t.snap)
    requires !Unreadable(t.start, t.snap, maxEvents, maxBytes, t.faults) ==>
               var step := Queue.Read(t.start, t.snap, maxEvents, maxBytes, parses);
               && t.batch == step.events && moved == (step.poisoned.Some? && !t.faults.move)
               && t.read == (if moved then Forget(step.reader, step.poisoned.value) else step.reader)
               && (moved ==> MovedAway(t.snap, before, step.poisoned.value, t.readSpool))
    requires !moved ==> t.readSpool == before
    ensures WasRead(t, maxEvents, maxBytes, parses)
  {
    hide Queue.Read, Evolves, MovedAway, Unreadable;
  }

  /** What was read does not depend on what happens afterwards. */
  lemma OnlyVerdict(t: PassTrace, maxEvents: int, maxBytes: int, parses: Bytes -> bool)
    ensures forall u: PassTrace ::
              && u.start == t.start && u.startSpool == t.startSpool && u.snap == t.snap && u.batch == t.batch
              && u.read == t.read && u.readSpool == t.readSpool && u.faults == t.faults
              && WasRead(u, maxEvents, maxBytes, parses) ==>
              WasRead(t, maxEvents, maxBytes, parses)
  {
    hide Queue.Read, Evolves, MovedAway;
  }

  lemma StillSorted(snap: Spool, before: Spool, now: Spool, moved: bool)
    requires Evolves(snap, before)
    requires !moved ==> now == before
    requires moved ==> exists i :: 0 <= i < |before| && now == Without(before, i)
    ensures Sorted(now)
  {
    if moved {
      var i :| 0 <= i < |before| && now == Without(before, i);
      WithoutSorted(before, i);
    }
  }
}
