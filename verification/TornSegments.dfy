/**
  A torn line at the end of any segment but the newest: no event of a newer segment is delivered any more, restarts
  or not, until that segment is quarantined.
*/
module TornSegments {
  import opened Wrappers

  import opened Lines
  import opened Queue
  import opened Pipeline
  import opened Invariants
  import opened Delivery

  // ---------------------------------------------------------------- what is read is the oldest unread segment

  /** All segments older than the one named are read to their end, and none of them will be written to. */
  predicate Oldest(spool: Spool, offsets: Offsets, writer: Writer, clock: nat, name: nat) {
    && name <= clock
    && (writer.current.Some? ==> name <= writer.current.value)
    && forall j :: 0 <= j < |spool| && spool[j].name < name ==> !Unread(spool[j], offsets)
  }

  predicate OldestIn(s: System, name: nat) {
    Oldest(s.spool, s.reader.offsets, s.writer, s.clock, name)
  }

  /** This is so for the batch being shipped and for a segment about to be moved away. */
  predicate ReadsOldest(s: System) {
    && (s.held.Some? ==> OldestIn(s, s.held.value.name))
    && (s.poisoned.Some? ==> OldestIn(s, s.poisoned.value))
  }

  /** Opening or rotating adds empty segments only, and writes on in a segment of the present time or the same one. */
  lemma OpenAdds(writer: Writer, spool: Spool, nextId: nat, bytes: nat, segmentMaxBytes: int, t1: nat, t2: nat)
    ensures var p := Open(Prepare(writer, spool, nextId, bytes, segmentMaxBytes, t1, t2));
            && (forall segment :: segment in p.spool ==> segment in spool || segment.content == [])
            && (p.writer.current.Some? ==>
                  p.writer.current == writer.current || p.writer.current.value == t1 || p.writer.current.value == t2)
  {
    hide IndexOf;
  }

  lemma EnqueueOldest(s: System, line: Bytes, t1: nat, t2: nat, cfg: Config, name: nat)
    requires OldestIn(s, name)
    ensures OldestIn(DoEnqueue(s, line, t1, t2, cfg), name)
  {
    hide IndexOf, Tail, Prepare, Open, WriterLine;
    var s' := DoEnqueue(s, line, t1, t2, cfg);
    OpenAdds(s.writer, s.spool, s.nextId, |line| + 1, cfg.segmentMaxBytes, t1, t2);
    forall j | 0 <= j < |s'.spool| && s'.spool[j].name < name
      ensures !Unread(s'.spool[j], s.reader.offsets)
    {
      assert s'.spool[j] in s'.spool;
    }
  }

  lemma WriteOldest(s: System, k: nat, cfg: Config, name: nat)
    requires OldestIn(s, name)
    ensures OldestIn(DoWrite(s, k, cfg), name)
  {
    hide IndexOf, Gained;
  }

  lemma CommitOldest(s: System, cfg: Config, name: nat)
    requires Inv(s, cfg) && OldestIn(s, name)
    ensures OldestIn(DoAcknowledge(s), name)
  {
    hide IndexOf, Events, Boundary;
    var s' := DoAcknowledge(s);
    if s.due.Some? && Commits(s.reader, |s.due.value.events|) {
      var b := s.due.value;
      forall j | 0 <= j < |s'.spool| && s'.spool[j].name < name
        ensures !Unread(s'.spool[j], s'.reader.offsets)
      {
        IndexOfSorted(s.spool, j);
      }
    }
  }

  lemma SweepOldest(s: System, gone: set<nat>, cfg: Config, name: nat)
    requires Inv(s, cfg) && OldestIn(s, name)
    ensures OldestIn(DoSweep(s, gone), name)
  {
    hide IndexOf, Keep, Sweepable;
    InvParts(s, cfg);
    KeepSorted(s.spool, gone);
    var s' := DoSweep(s, gone);
    forall j | 0 <= j < |s'.spool| && s'.spool[j].name < name
      ensures !Unread(s'.spool[j], s'.reader.offsets)
    {
      assert s'.spool[j] in s'.spool;
      assert s'.spool[j] in s.spool;
    }
  }

  lemma MoveAwayOldest(s: System, ok: bool, cfg: Config, name: nat)
    requires Inv(s, cfg) && OldestIn(s, name)
    ensures OldestIn(DoMoveAway(s, ok), name)
  {
    hide IndexOf;
    InvParts(s, cfg);
    if s.poisoned.Some? && Has(s.spool, s.poisoned.value) {
      WithoutSorted(s.spool, IndexOf(s.spool, s.poisoned.value));
    }
  }

  lemma ReadOldest(s: System, cfg: Config)
    requires Inv(s, cfg) && ReadsOldest(s)
    ensures ReadsOldest(DoRead(s, cfg))
  {
    hide Take, ParseAll, NoteStreak, Choose, Touch, IndexOf;
    InvParts(s, cfg);
    if ReaderFree(s) {
      var i := Choose(s.spool, s.reader.offsets);
      if i < |s.spool| {
        ChosenOldest(s, i, cfg);
      }
    }
  }

  lemma ChosenOldest(s: System, i: nat, cfg: Config)
    requires Inv(s, cfg) && i == Choose(s.spool, s.reader.offsets) < |s.spool|
    ensures OldestIn(s, s.spool[i].name)
  {
    hide Choose, OffsetsOk, LastOk, JobOk;
    forall j | 0 <= j < |s.spool| && s.spool[j].name < s.spool[i].name
      ensures !Unread(s.spool[j], s.reader.offsets)
    {
      assert !(j > i) && j != i;
    }
  }

  lemma StepOldest(s: System, a: Action, cfg: Config, name: nat)
    requires Inv(s, cfg) && OldestIn(s, name) && !a.Crash? && !a.Read?
    ensures OldestIn(Next(s, a, cfg), name)
  {
    hide Inv, DoRead, DoEnqueue, DoWrite, DoAcknowledge, DoMoveAway, DoSweep, AllEvents, ReadFails;
    match a
    case Enqueue(line, t1, t2) => EnqueueOldest(s, line, t1, t2, cfg, name);
    case Write(k) => WriteOldest(s, k, cfg, name);
    case Acknowledge => CommitOldest(s, cfg, name);
    case MoveAway(ok) => MoveAwayOldest(s, ok, cfg, name);
    case Sweep(gone) => SweepOldest(s, gone, cfg, name);
    case ReadFailed => ReadFailedOffsets(s);
    case _ =>
  }

  lemma StepReadsOldest(s: System, a: Action, cfg: Config)
    requires Inv(s, cfg) && ReadsOldest(s)
    ensures ReadsOldest(Next(s, a, cfg))
  {
    hide Inv, OldestIn, DoRead, AllEvents;
    if a.Read? {
      ReadOldest(s, cfg);
    } else if !a.Crash? {
      if s.held.Some? {
        StepOldest(s, a, cfg, s.held.value.name);
      }
      if s.poisoned.Some? {
        StepOldest(s, a, cfg, s.poisoned.value);
      }
      StepKeepsHeld(s, a, cfg);
    }
  }

  lemma StepKeepsHeld(s: System, a: Action, cfg: Config)
    requires !a.Crash? && !a.Read?
    ensures var s' := Next(s, a, cfg);
            && (s'.held.Some? ==> s'.held == s.held) && (s'.poisoned.Some? ==> s'.poisoned == s.poisoned)
  {
    hide Prepare, Open, IndexOf, Tail, Gained, AppendTo, Keep, ReadFails, Sweepable, Commit;
  }

  lemma {:induction false} ReadsOldestAlways(s: System, actions: seq<Action>, cfg: Config)
    requires Inv(s, cfg) && ReadsOldest(s)
    ensures Inv(Exec(s, actions, cfg), cfg) && ReadsOldest(Exec(s, actions, cfg))
    decreases |actions|
  {
    hide Inv, ReadsOldest, Next;
    if actions != [] {
      InvNext(s, actions[0], cfg);
      StepReadsOldest(s, actions[0], cfg);
      ReadsOldestAlways(Next(s, actions[0], cfg), actions[1..], cfg);
    }
  }

  // ---------------------------------------------------------------- a torn segment

  /** The segment ends in an unfinished line, and there is a newer one. */
  ghost predicate TornInPlace(spool: Spool, torn: Segment) {
    && !Complete(torn.content)
    && exists i :: 0 <= i < |spool| - 1 && spool[i] == torn
  }

  /** Offsets lie at line boundaries, so it is never read to its end. */
  lemma TornUnread(s: System, torn: Segment, cfg: Config)
    requires Inv(s, cfg) && TornInPlace(s.spool, torn)
    ensures Unread(torn, s.reader.offsets)
    ensures ReadsOldest(s) && s.held.Some? ==> s.held.value.name <= torn.name
    ensures ReadsOldest(s) && s.poisoned.Some? ==> s.poisoned.value <= torn.name
  {
    hide DiskOk, WriterOk, LastOk, IndexOf;
    var i :| 0 <= i < |s.spool| - 1 && s.spool[i] == torn;
    assert Boundary(s.spool[i].content, OffsetOf(s.reader.offsets, s.spool[i].name));
  }

  lemma TornEvolves(before: Spool, after: Spool, torn: Segment)
    requires TornInPlace(before, torn) && Evolves(before, after)
    ensures TornInPlace(after, torn)
  {
    hide Complete;
    var i :| 0 <= i < |before| - 1 && before[i] == torn;
    assert after[i] == torn;
  }

  lemma TornWithout(s: System, ok: bool, torn: Segment, cfg: Config)
    requires Inv(s, cfg) && ReadsOldest(s) && TornInPlace(s.spool, torn)
    ensures var s' := DoMoveAway(s, ok); TornInPlace(s'.spool, torn) || torn in s'.bad
  {
    hide Complete, IndexOf;
    InvParts(s, cfg);
    TornUnread(s, torn, cfg);
    var i :| 0 <= i < |s.spool| - 1 && s.spool[i] == torn;
    var s' := DoMoveAway(s, ok);
    if s'.spool != s.spool {
      var k := IndexOf(s.spool, s.poisoned.value);
      WithoutSorted(s.spool, k);
      IndexOfSorted(s.spool, i);
      assert !(k > i);
      if k == i {
        assert s'.bad[|s'.bad| - 1] == torn;
      } else {
        assert s'.spool[i - 1] == torn;
      }
    }
  }

  lemma TornKept(s: System, gone: set<nat>, torn: Segment, cfg: Config)
    requires Inv(s, cfg) && TornInPlace(s.spool, torn)
    ensures TornInPlace(DoSweep(s, gone).spool, torn)
  {
    hide Complete, IndexOf, Keep;
    if Sweepable(s.spool, s.reader.offsets, gone) {
      InvParts(s, cfg);
      TornUnread(s, torn, cfg);
      var i :| 0 <= i < |s.spool| - 1 && s.spool[i] == torn;
      IndexOfSorted(s.spool, i);
      KeepSorted(s.spool, gone);
      KeptLast(s.spool, s.reader.offsets, gone);
      var kept := Keep(s.spool, gone);
      assert torn in kept;
      var j :| 0 <= j < |kept| && kept[j] == torn;
      assert kept[|kept| - 1] != torn;
      assert j < |kept| - 1;
    }
  }

  lemma TornStep(s: System, a: Action, torn: Segment, cfg: Config)
    requires Inv(s, cfg) && ReadsOldest(s) && TornInPlace(s.spool, torn)
    ensures var s' := Next(s, a, cfg);
            && (TornInPlace(s'.spool, torn) || torn in s'.bad)
            && s.accepted <= s'.accepted
            && forall b :: b in s'.accepted[|s.accepted|..] ==> b.name <= torn.name
  {
    hide Inv, ReadsOldest, TornInPlace, DoRead, DoEnqueue, DoWrite, DoMoveAway, DoSweep, AllEvents, ReadFails, Evolves;
    AcceptedOnly(s, a, cfg);
    TornUnread(s, torn, cfg);
    var s' := Next(s, a, cfg);
    match a
    case Enqueue(line, t1, t2) =>
      InvParts(s, cfg);
      EnqueueEvolves(s, line, t1, t2, cfg);
      TornEvolves(s.spool, s'.spool, torn);
    case Write(k) =>
      InvParts(s, cfg);
      WriteEvolves(s, k, cfg);
      TornEvolves(s.spool, s'.spool, torn);
    case MoveAway(ok) => TornWithout(s, ok, torn, cfg);
    case Sweep(gone) => TornKept(s, gone, torn, cfg);
    case Read => ReadKeepsSpool(s, cfg);
    case _ =>
  }

  lemma ReadKeepsSpool(s: System, cfg: Config)
    ensures DoRead(s, cfg).spool == s.spool && DoRead(s, cfg).bad == s.bad
  {
    hide Choose, Take, ParseAll, Touch;
  }

  /** A batch is accepted only by the server's answer to the one being shipped; quarantined files stay quarantined. */
  lemma AcceptedOnly(s: System, a: Action, cfg: Config)
    ensures var s' := Next(s, a, cfg);
            && s.bad <= s'.bad
            && (s'.accepted == s.accepted || (s.held.Some? && s'.accepted == s.accepted + [s.held.value]))
  {
    hide Prepare, Open, IndexOf, Tail, Gained, AppendTo, Keep, ReadFails, Sweepable, Commit, AllEvents, Choose, Take,
         ParseAll, Touch;
  }

  lemma {:induction false} BadStays(s: System, actions: seq<Action>, cfg: Config)
    ensures s.bad <= Exec(s, actions, cfg).bad && s.accepted <= Exec(s, actions, cfg).accepted
    decreases |actions|
  {
    hide Next;
    if actions != [] {
      AcceptedOnly(s, actions[0], cfg);
      BadStays(Next(s, actions[0], cfg), actions[1..], cfg);
    }
  }

  lemma {:induction false} TornRun(s: System, actions: seq<Action>, torn: Segment, cfg: Config)
    requires Inv(s, cfg) && ReadsOldest(s) && TornInPlace(s.spool, torn)
    ensures var e := Exec(s, actions, cfg);
            && s.accepted <= e.accepted
            && (torn !in e.bad ==>
                  && TornInPlace(e.spool, torn)
                  && forall b :: b in e.accepted[|s.accepted|..] ==> b.name <= torn.name)
    decreases |actions|
  {
    hide Inv, ReadsOldest, TornInPlace, Next;
    if actions != [] {
      var s', e := Next(s, actions[0], cfg), Exec(s, actions, cfg);
      InvNext(s, actions[0], cfg);
      StepReadsOldest(s, actions[0], cfg);
      TornStep(s, actions[0], torn, cfg);
      BadStays(s', actions[1..], cfg);
      if torn !in e.bad {
        assert torn !in s'.bad;
        TornRun(s', actions[1..], torn, cfg);
        assert e.accepted[|s.accepted|..] == s'.accepted[|s.accepted|..] + e.accepted[|s'.accepted|..];
      }
    }
  }

  /**
    In every run, from the moment a segment that is not the newest ends in an unfinished line: whatever happens -
    crashes and restarts included - that segment stays where it is, and no batch of a newer segment is accepted,
    until it is quarantined.
  */
  lemma {:induction false} TornSegmentBlocks(before: seq<Action>, after: seq<Action>, torn: Segment, cfg: Config)
    requires TornInPlace(Exec(Init(), before, cfg).spool, torn)
    ensures var s := Exec(Init(), before, cfg);
            var e := Exec(s, after, cfg);
            && s.accepted <= e.accepted
            && (torn !in e.bad ==>
                  && TornInPlace(e.spool, torn)
                  && forall b :: b in e.accepted[|s.accepted|..] ==> b.name <= torn.name)
  {
    hide Exec, Inv, ReadsOldest, TornInPlace;
    InvInit(cfg);
    NothingRead();
    ReadsOldestAlways(Init(), before, cfg);
    TornRun(Exec(Init(), before, cfg), after, torn, cfg);
  }

  lemma NothingRead()
    ensures ReadsOldest(Init())
  {}

  // ---------------------------------------------------------------- how it comes about

  /**
    From any reachable state: the process dies when an enqueue has written some bytes of its line, and the next
    process enqueues anything. The segment it was written to is then torn and in place.
  */
  lemma {:induction false} CrashTears(before: seq<Action>, line: Bytes, now: nat, cfg: Config)
    requires var s := Exec(Init(), before, cfg);
             && s.job.Some? && |s.job.value.left| <= |s.job.value.line|
             && WriterLine(line) && cfg.parses(line) && now > s.clock && |line| < cfg.segmentMaxBytes
    ensures var s := Exec(Init(), before, cfg);
            var e := Exec(s, [Crash, Enqueue(line, now, now)], cfg);
            s.spool != [] && TornInPlace(e.spool, s.spool[|s.spool| - 1])
  {
    hide Exec, Inv, WriterLine;
    InvInit(cfg);
    InvExec(Init(), before, cfg);
    var s := Exec(Init(), before, cfg);
    JobTears(s, cfg);
    var c := Next(s, Crash, cfg);
    NewSegment(s, c, line, now, cfg);
    ExecTwo(s, Crash, Enqueue(line, now, now), cfg);
  }

  /** Behind some bytes of an unfinished line the file is not complete. */
  lemma JobTears(s: System, cfg: Config)
    requires Inv(s, cfg) && s.job.Some? && |s.job.value.left| <= |s.job.value.line|
    ensures s.spool != [] && !Complete(s.spool[|s.spool| - 1].content)
  {
    hide IndexOf, Tail, DiskOk, OffsetsOk, LastOk;
    var job := s.job.value;
    var content := s.spool[|s.spool| - 1].content;
    var written := |job.line| + 1 - |job.left|;
    assert content[|content| - 1] == content[job.at..][written - 1] == job.line[written - 1];
  }

  lemma NewSegment(s: System, c: System, line: Bytes, now: nat, cfg: Config)
    requires Inv(s, cfg) && s.spool != [] && !Complete(s.spool[|s.spool| - 1].content) && c == DoCrash(s, cfg)
    requires WriterLine(line) && cfg.parses(line) && now > s.clock && |line| < cfg.segmentMaxBytes
    ensures TornInPlace(DoEnqueue(c, line, now, now, cfg).spool, s.spool[|s.spool| - 1])
  {
    hide IndexOf, Tail, AllEvents, Complete, WriterLine, OffsetsOk, LastOk, WriterOk;
    var torn := s.spool[|s.spool| - 1];
    var newest := Segment(now, s.nextId, []);
    assert !Has(s.spool, now);
    var after := s.spool + [newest];
    HasCreated(s.spool, newest);
    assert after[|s.spool| - 1] == torn;
    var e := DoEnqueue(c, line, now, now, cfg);
    assert e.spool == after;
  }
}
