/**
  The shipper's loop is a run of the transition system: whenever what other threads did to the directory are steps of
  the writer, each pass ends as a run does that interleaves those steps with one read, one reply, one acknowledgement
  and one sweep, and so does the whole loop. What holds of every run therefore holds of the class.
*/
module PassRefinement {
  import opened Wrappers

  import opened Lines
  import opened Pipeline
  import opened Queue
  import opened SegmentReader
  import opened QueueReader
  import opened Shipper
  import opened Invariants
  import opened Delivery
  import opened Exactness

  predicate WriterStep(a: Action) {
    a.Enqueue? || a.Write? || a.Abort?
  }

  predicate WriterSteps(actions: seq<Action>) {
    forall a :: a in actions ==> WriterStep(a)
  }

  /** The part of the state that the reader and the shipper own. */
  predicate SameReading(s: System, e: System) {
    && e.reader == s.reader && e.poisoned == s.poisoned && e.held == s.held && e.due == s.due
    && e.accepted == s.accepted
  }

  lemma WriterKeepsReading(s: System, a: Action, cfg: Config)
    requires WriterStep(a)
    ensures SameReading(s, Next(s, a, cfg))
  {
    hide Prepare, Open, IndexOf, Tail, Gained, AppendTo;
  }

  lemma {:induction false} WritersKeepReading(s: System, actions: seq<Action>, cfg: Config)
    requires WriterSteps(actions)
    ensures SameReading(s, Exec(s, actions, cfg))
    decreases |actions|
  {
    hide Next;
    if actions != [] {
      assert actions[0] in actions;
      WriterKeepsReading(s, actions[0], cfg);
      WritersKeepReading(Next(s, actions[0], cfg), actions[1..], cfg);
    }
  }

  /** How the read of the pass went. */
  datatype How = Failed | Unmoved | Moved

  predicate Went(how: How, t: PassTrace, cfg: Config) {
    var step := Queue.Read(t.start, t.snap, cfg.maxEvents, cfg.maxBytes, cfg.parses);
    match how
    case Failed => t.batch == [] && t.read == ReadFails(t.start, t.snap)
    case Unmoved => t.batch == step.events && t.read == step.reader
    case Moved => t.batch == step.events && step.poisoned.Some? && t.read == Forget(step.reader, step.poisoned.value)
  }

  lemma ItWent(t: PassTrace, cfg: Config)
    requires WasRead(t, cfg.maxEvents, cfg.maxBytes, cfg.parses)
    ensures exists how :: Went(how, t, cfg)
  {
    hide Queue.Read, Evolves, MovedAway;
    var step := Queue.Read(t.start, t.snap, cfg.maxEvents, cfg.maxBytes, cfg.parses);
    if t.batch == [] && t.read == ReadFails(t.start, t.snap) {
      assert Went(How.Failed, t, cfg);
    } else if t.batch == step.events && t.read == step.reader {
      assert Went(Unmoved, t, cfg);
    } else {
      assert Went(Moved, t, cfg);
    }
  }

  /**
    How a pass went, and what other threads did: before the read, before a poisoned file is moved, before the listing
    for the sweep, and after the sweep.
  */
  datatype Schedule = Schedule(how: How, a0: seq<Action>, a1: seq<Action>, a2: seq<Action>, a3: seq<Action>)

  predicate ByWriters(o: Schedule) {
    WriterSteps(o.a0) && WriterSteps(o.a1) && WriterSteps(o.a2) && WriterSteps(o.a3)
  }

  function ReadAction(how: How): Action {
    if how.Failed? then ReadFailed else Read
  }

  /** The poisoned file is still there, and no enqueue holds it open. */
  predicate Movable(s: System) {
    && s.poisoned.Some? && IndexOf(s.spool, s.poisoned.value) < |s.spool|
    && !(s.job.Some? && s.writer.current == s.poisoned)
  }

  /** The state after the read. */
  function AfterRead(s: System, o: Schedule, cfg: Config): System {
    Next(Exec(Next(Exec(s, o.a0, cfg), ReadAction(o.how), cfg), o.a1, cfg), MoveAway(o.how.Moved?), cfg)
  }

  /** The state after the server's reply and the acknowledgement. */
  function AfterReply(s: System, t: PassTrace, cfg: Config): System {
    Next(Next(s, Reply(t.verdict.Acked?), cfg), Acknowledge, cfg)
  }

  function SweptAway(t: PassTrace): set<nat> {
    if t.verdict.Acked? && Commits(t.read, |t.batch|) then t.gone else {}
  }

  /** The state when the files to delete are listed, and at the end. */
  function Listed(s: System, t: PassTrace, o: Schedule, cfg: Config): System {
    Exec(AfterReply(AfterRead(s, o, cfg), t, cfg), o.a2, cfg)
  }

  function WholePass(s: System, t: PassTrace, o: Schedule, cfg: Config): System {
    Exec(Next(Listed(s, t, o, cfg), Sweep(SweptAway(t)), cfg), o.a3, cfg)
  }

  /** All that happens during a pass. */
  function StepsOf(t: PassTrace, o: Schedule): seq<Action> {
    o.a0 + ([ReadAction(o.how)] + (o.a1 + ([MoveAway(o.how.Moved?)] + ([Reply(t.verdict.Acked?)] +
    ([Acknowledge] + (o.a2 + ([Sweep(SweptAway(t))] + o.a3)))))))
  }

  /** That is one run of the transition system. */
  lemma {:induction false} WholePassIsExec(s: System, t: PassTrace, o: Schedule, cfg: Config)
    ensures WholePass(s, t, o, cfg) == Exec(s, StepsOf(t, o), cfg)
  {
    hide Exec, Next;
    var s1 := Exec(s, o.a0, cfg);
    var rest6 := [Sweep(SweptAway(t))] + o.a3;
    var rest5 := o.a2 + rest6;
    var rest4 := [Acknowledge] + rest5;
    var rest3 := [Reply(t.verdict.Acked?)] + rest4;
    var rest2 := [MoveAway(o.how.Moved?)] + rest3;
    var rest1 := o.a1 + rest2;
    ExecSplit(s, o.a0, [ReadAction(o.how)] + rest1, cfg);
    StepThen(s1, ReadAction(o.how), rest1, cfg);
    var s2 := Next(s1, ReadAction(o.how), cfg);
    ExecSplit(s2, o.a1, rest2, cfg);
    var s3 := Exec(s2, o.a1, cfg);
    StepThen(s3, MoveAway(o.how.Moved?), rest3, cfg);
    var s4 := Next(s3, MoveAway(o.how.Moved?), cfg);
    StepThen(s4, Reply(t.verdict.Acked?), rest4, cfg);
    var s5 := Next(s4, Reply(t.verdict.Acked?), cfg);
    StepThen(s5, Acknowledge, rest5, cfg);
    var s6 := Next(s5, Acknowledge, cfg);
    ExecSplit(s6, o.a2, rest6, cfg);
    StepThen(Exec(s6, o.a2, cfg), Sweep(SweptAway(t)), o.a3, cfg);
  }

  lemma {:induction false} StepThen(s: System, a: Action, rest: seq<Action>, cfg: Config)
    ensures Exec(s, [a] + rest, cfg) == Exec(Next(s, a, cfg), rest, cfg)
  {
    hide Exec, Next;
    ExecSplit(s, [a], rest, cfg);
    OneStep(s, a, cfg);
  }

  /** The read hands the batch over, and leaves the reader as the pass says. */
  lemma {:induction false} ReadMatches(s: System, t: PassTrace, o: Schedule, cfg: Config)
    requires s.reader == t.start && ReaderFree(s) && ByWriters(o)
    requires Went(o.how, t, cfg) && Exec(s, o.a0, cfg).spool == t.snap
    requires o.how.Moved? ==> Movable(Exec(Next(Exec(s, o.a0, cfg), Read, cfg), o.a1, cfg))
    ensures var e := AfterRead(s, o, cfg);
            && e.reader == t.read && e.poisoned.None? && e.due.None? && e.accepted == s.accepted
            && (if t.batch == [] then e.held.None? else e.held.Some? && e.held.value.events == t.batch)
  {
    hide Exec, Choose, Take, ParseAll, Touch, NoteStreak, ReadFails, Without, IndexOf;
    var s1 := Exec(s, o.a0, cfg);
    WritersKeepReading(s, o.a0, cfg);
    var s2 := Next(s1, ReadAction(o.how), cfg);
    WritersKeepReading(s2, o.a1, cfg);
    EventsNeedSegment(s1, cfg);
  }

  lemma EventsNeedSegment(s: System, cfg: Config)
    ensures Queue.Read(s.reader, s.spool, cfg.maxEvents, cfg.maxBytes, cfg.parses).events != [] ==>
              Choose(s.spool, s.reader.offsets) < |s.spool|
  {
    hide Choose, Take, ParseAll, Touch, NoteStreak;
  }

  lemma {:induction false} OneStep(s: System, a: Action, cfg: Config)
    ensures Exec(s, [a], cfg) == Next(s, a, cfg)
  {
    hide Next;
    assert [a][1..] == [];
    ExecDone(Next(s, a, cfg), cfg);
  }

  /** Replying and acknowledging change the reader as the pass says, up to the sweep. */
  lemma ReplyMatches(s: System, t: PassTrace, cfg: Config)
    requires s.reader == t.read && s.poisoned.None? && s.due.None?
    requires if t.batch == [] then s.held.None? else s.held.Some? && s.held.value.events == t.batch
    requires t.batch == [] ==> !t.verdict.Acked?
    ensures var e := AfterReply(s, t, cfg);
            && ReaderFree(e)
            && e.reader == (if t.verdict.Acked? then Commit(t.read, |t.batch|) else t.read)
            && e.spool == s.spool
            && e.accepted == s.accepted + (if t.verdict.Acked? then [s.held.value] else [])
  {
    assert s.accepted + [] == s.accepted;
  }

  /**
    The schedule explains the pass: whenever the pass looks at the directory, and when it ends, the directory is as
    the writers' steps leave it.
  */
  predicate Explains(o: Schedule, s: System, t: PassTrace, cfg: Config) {
    && ByWriters(o) && Went(o.how, t, cfg)
    && Exec(s, o.a0, cfg).spool == t.snap
    && (o.how.Moved? ==> Movable(Exec(Next(Exec(s, o.a0, cfg), Read, cfg), o.a1, cfg)))
    && (t.verdict.Acked? && Commits(t.read, |t.batch|) ==> Listed(s, t, o, cfg).spool == t.listing)
    && WholePass(s, t, o, cfg).spool == t.endSpool
  }

  function BatchesOf(t: PassTrace): seq<seq<Bytes>> {
    if t.verdict.Acked? then [t.batch] else []
  }

  function EventsOf(batches: seq<Batch>): seq<seq<Bytes>> {
    if batches == [] then [] else [batches[0].events] + EventsOf(batches[1..])
  }

  /**
    The refinement: a pass is the run that interleaves its steps with those that explain it. Reader and directory end
    alike, the sweep leaves the same files, and the batch was accepted in that run exactly if the pass acknowledged it.
  */
  lemma {:induction false} PassIsRun(s: System, t: PassTrace, o: Schedule, cfg: Config)
    requires PassOk(t, cfg.maxEvents, cfg.maxBytes, cfg.parses) && Explains(o, s, t, cfg)
    requires s.reader == t.start && s.spool == t.startSpool && ReaderFree(s)
    ensures var e := Exec(s, StepsOf(t, o), cfg);
            && e.reader == t.end && e.spool == t.endSpool && ReaderFree(e)
            && (t.verdict.Acked? && Commits(t.read, |t.batch|) ==>
                  exists swept: System :: swept.spool == Keep(t.listing, t.gone) && e == Exec(swept, o.a3, cfg))
            && s.accepted <= e.accepted && EventsOf(e.accepted[|s.accepted|..]) == BatchesOf(t)
  {
    hide Exec, WasRead, Went, AfterRead, AfterReply, Evolves, Sweepable, Keep, Taken;
    WholePassIsExec(s, t, o, cfg);
    ReadMatches(s, t, o, cfg);
    var read := AfterRead(s, o, cfg);
    ReplyMatches(read, t, cfg);
    var replied := AfterReply(read, t, cfg);
    WritersKeepReading(replied, o.a2, cfg);
    var listed := Exec(replied, o.a2, cfg);
    SweepMatches(listed, t, cfg);
    WritersKeepReading(Next(listed, Sweep(SweptAway(t)), cfg), o.a3, cfg);
    var more := replied.accepted[|s.accepted|..];
    if t.verdict.Acked? {
      assert more == [read.held.value] && more[1..] == [];
      assert EventsOf([]) == [];
    } else {
      assert more == [];
    }
  }

  lemma SweepMatches(s: System, t: PassTrace, cfg: Config)
    requires ReaderFree(s) && PassOk(t, cfg.maxEvents, cfg.maxBytes, cfg.parses)
    requires s.reader == (if t.verdict.Acked? then Commit(t.read, |t.batch|) else t.read)
    requires t.verdict.Acked? && Commits(t.read, |t.batch|) ==> s.spool == t.listing
    ensures var e := Next(s, Sweep(SweptAway(t)), cfg);
            && e.reader == t.end && ReaderFree(e) && e.accepted == s.accepted
            && (t.verdict.Acked? && Commits(t.read, |t.batch|) ==> e.spool == Keep(t.listing, t.gone))
  {
    hide WasRead, Evolves, Keep, Taken, Sweepable, Cleared;
    var e := Next(s, Sweep(SweptAway(t)), cfg);
    if t.verdict.Acked? && Commits(t.read, |t.batch|) {
      EvolvesSorted(t.readSpool, t.listing);
      ClearedSweepable(t.listing, |t.listing|, Commit(t.read, |t.batch|).offsets, t.faults.stuck);
    }
    if !(t.verdict.Acked? && Commits(t.read, |t.batch|)) {
      assert s.reader.offsets - {} == s.reader.offsets && s.reader.failures - {} == s.reader.failures;
    }
  }

  /** Nobody else touches the directory during the pass. */
  predicate Alone(how: How, t: PassTrace, cfg: Config) {
    var poisoned := Queue.Read(t.start, t.snap, cfg.maxEvents, cfg.maxBytes, cfg.parses).poisoned;
    && t.snap == t.startSpool
    && (if how.Moved? then
          && poisoned.Some? && IndexOf(t.snap, poisoned.value) < |t.snap|
          && t.readSpool == Without(t.snap, IndexOf(t.snap, poisoned.value))
        else t.readSpool == t.snap)
    && if t.verdict.Acked? && Commits(t.read, |t.batch|)
       then t.listing == t.readSpool && t.endSpool == Keep(t.listing, t.gone) else t.endSpool == t.readSpool
  }

  /** A pass that nobody disturbs is explained by nobody's steps. */
  lemma {:induction false} AloneExplained(s: System, t: PassTrace, how: How, cfg: Config)
    requires PassOk(t, cfg.maxEvents, cfg.maxBytes, cfg.parses) && Went(how, t, cfg) && Alone(how, t, cfg)
    requires s.reader == t.start && s.spool == t.startSpool && ReaderFree(s) && s.job.None?
    ensures Explains(Schedule(how, [], [], [], []), s, t, cfg)
  {
    hide PassOk, Next, Went, Keep, Without, IndexOf;
    var o := Schedule(how, [], [], [], []);
    ExecDone(s, cfg);
    var s1 := Next(s, ReadAction(how), cfg);
    ExecDone(s1, cfg);
    AloneRead(s, t, how, cfg);
    ReadMatches(s, t, o, cfg);
    var read := AfterRead(s, o, cfg);
    assert read == Next(s1, MoveAway(how.Moved?), cfg);
    assert t.batch == [] ==> !t.verdict.Acked? by { NothingUnread(t, cfg); }
    ReplyMatches(read, t, cfg);
    var replied := AfterReply(read, t, cfg);
    ExecDone(replied, cfg);
    SweepMatches(replied, t, cfg);
    var swept := Next(replied, Sweep(SweptAway(t)), cfg);
    ExecDone(swept, cfg);
    if !(t.verdict.Acked? && Commits(t.read, |t.batch|)) {
      SweepNothing(replied, cfg);
    }
  }

  lemma NothingUnread(t: PassTrace, cfg: Config)
    requires PassOk(t, cfg.maxEvents, cfg.maxBytes, cfg.parses)
    ensures t.batch == [] ==> !t.verdict.Acked?
  {
    hide WasRead;
  }

  lemma SweepNothing(s: System, cfg: Config)
    ensures Next(s, Sweep({}), cfg).spool == s.spool
  {
    hide Keep;
    KeepAll(s.spool, {});
  }

  lemma AloneRead(s: System, t: PassTrace, how: How, cfg: Config)
    requires Went(how, t, cfg) && Alone(how, t, cfg)
    requires s.reader == t.start && s.spool == t.startSpool && ReaderFree(s) && s.job.None?
    ensures how.Moved? ==> Movable(Next(s, Read, cfg))
    ensures Next(Next(s, ReadAction(how), cfg), MoveAway(how.Moved?), cfg).spool == t.readSpool
  {
    hide Queue.Read, Keep, Without, IndexOf, Choose, Take, ReadFails;
  }

  // ---------------------------------------------------------------- the whole loop

  predicate ExplainsAll(os: seq<Schedule>, s: System, trace: seq<PassTrace>, cfg: Config)
    decreases |trace|
  {
    if trace == [] then os == []
    else os != [] && Explains(os[0], s, trace[0], cfg)
         && ExplainsAll(os[1..], Exec(s, StepsOf(trace[0], os[0]), cfg), trace[1..], cfg)
  }

  function AllSteps(trace: seq<PassTrace>, os: seq<Schedule>): seq<Action>
    requires |os| == |trace|
  {
    if trace == [] then [] else StepsOf(trace[0], os[0]) + AllSteps(trace[1..], os[1..])
  }

  function AcknowledgedBatches(trace: seq<PassTrace>): seq<seq<Bytes>> {
    if trace == [] then [] else BatchesOf(trace[0]) + AcknowledgedBatches(trace[1..])
  }

  lemma {:induction false} BatchesConcat(a: seq<Batch>, b: seq<Batch>)
    ensures EventsOf(a + b) == EventsOf(a) + EventsOf(b)
  {
    if a == [] {
      assert a + b == b;
    } else {
      assert (a + b)[1..] == a[1..] + b;
      BatchesConcat(a[1..], b);
    }
  }

  lemma {:induction false} OneEach(os: seq<Schedule>, s: System, trace: seq<PassTrace>, cfg: Config)
    requires ExplainsAll(os, s, trace, cfg)
    ensures |os| == |trace|
    decreases |trace|
  {
    hide Explains, Exec;
    if trace != [] {
      OneEach(os[1..], Exec(s, StepsOf(trace[0], os[0]), cfg), trace[1..], cfg);
    }
  }

  ghost predicate AllOk(trace: seq<PassTrace>, cfg: Config) {
    forall i :: 0 <= i < |trace| ==> PassOk(trace[i], cfg.maxEvents, cfg.maxBytes, cfg.parses)
  }

  /** The whole loop is one run, which accepts the batches that the passes acknowledged, in order. */
  lemma {:induction false} TraceIsRun(
    s: System, trace: seq<PassTrace>, os: seq<Schedule>, end: Reader, endSpool: Spool, cfg: Config)
    requires AllOk(trace, cfg) && Connects(trace, s.reader, s.spool, end, endSpool)
    requires ReaderFree(s) && ExplainsAll(os, s, trace, cfg)
    ensures |os| == |trace|
    ensures var e := Exec(s, AllSteps(trace, os), cfg);
            && e.reader == end && e.spool == endSpool && ReaderFree(e)
            && s.accepted <= e.accepted && EventsOf(e.accepted[|s.accepted|..]) == AcknowledgedBatches(trace)
    decreases |trace|
  {
    hide Exec, Explains, PassOk, StepsOf;
    OneEach(os, s, trace, cfg);
    if trace == [] {
      ExecDone(s, cfg);
      assert s.accepted[|s.accepted|..] == [];
    } else {
      PassIsRun(s, trace[0], os[0], cfg);
      var mid := Exec(s, StepsOf(trace[0], os[0]), cfg);
      RestConnects(trace, s.reader, s.spool, end, endSpool);
      assert forall i :: 0 <= i < |trace| - 1 ==> trace[1..][i] == trace[i + 1];
      TraceIsRun(mid, trace[1..], os[1..], end, endSpool, cfg);
      ExecSplit(s, StepsOf(trace[0], os[0]), AllSteps(trace[1..], os[1..]), cfg);
      var e := Exec(s, AllSteps(trace, os), cfg);
      BatchesConcat(mid.accepted[|s.accepted|..], e.accepted[|mid.accepted|..]);
      assert e.accepted[|s.accepted|..] == mid.accepted[|s.accepted|..] + e.accepted[|mid.accepted|..];
    }
  }

  lemma RestConnects(trace: seq<PassTrace>, start: Reader, startSpool: Spool, end: Reader, endSpool: Spool)
    requires trace != [] && Connects(trace, start, startSpool, end, endSpool)
    ensures Connects(trace[1..], trace[0].end, trace[0].endSpool, end, endSpool)
  {
    var rest := trace[1..];
    forall i | 0 < i < |rest|
      ensures rest[i].start == rest[i - 1].end && rest[i].startSpool == rest[i - 1].endSpool
    {
      assert rest[i] == trace[i + 1] && rest[i - 1] == trace[i];
    }
    if rest != [] {
      assert trace[1].start == trace[0].end;
    }
  }

  /**
    At least once, for the class: from any state that a run can reach, let the loop run over any answers, as the trace
    it returns tells. Then an event whose enqueue returned is waiting behind the offset the reader ends with, or lies
    in a quarantined file, or stood in its own place in a batch that was accepted - before, or as one of those the
    trace acknowledges - exactly if its enqueue found no torn line.
  */
  lemma {:induction false} ShippedAtLeastOnce(
    before: seq<Action>, trace: seq<PassTrace>, answers: seq<Answer>, faults: seq<Faults>, os: seq<Schedule>,
    end: Reader, endSpool: Spool, cfg: Config, r: Receipt)
    requires Traced(trace, answers, faults, cfg.maxEvents, cfg.maxBytes, cfg.parses)
    requires var s := Exec(Init(), before, cfg);
             && ReaderFree(s) && Connects(trace, s.reader, s.spool, end, endSpool) && ExplainsAll(os, s, trace, cfg)
    requires |os| == |trace| && r in Exec(Exec(Init(), before, cfg), AllSteps(trace, os), cfg).receipts
    ensures var s := Exec(Init(), before, cfg);
            var e := Exec(s, AllSteps(trace, os), cfg);
            && s.accepted <= e.accepted && EventsOf(e.accepted[|s.accepted|..]) == AcknowledgedBatches(trace)
            && (Waiting(r, endSpool, end.offsets) || Quarantined(r, e.bad) || Delivered(r, e.accepted, cfg.parses)
                <==> r.clean)
  {
    hide Exec, ExplainsAll, PassOk, Connects, Waiting, Quarantined, Delivered;
    var s := Exec(Init(), before, cfg);
    TraceIsRun(s, trace, os, end, endSpool, cfg);
    ExecSplit(Init(), before, AllSteps(trace, os), cfg);
    AccountedExactly(before + AllSteps(trace, os), cfg, r);
  }
}
