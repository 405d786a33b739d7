/** Every step of the queue keeps the invariants of module Pipeline. */
module Invariants {
  import opened Wrappers
  import opened Lines
  import opened Queue
  import opened Pipeline

  // ---------------------------------------------------------------- writer steps

  lemma AppendedEvolves(spool: Spool, segment: Segment)
    requires Sorted(spool) && forall i :: 0 <= i < |spool| ==> spool[i].name < segment.name
    ensures Evolves(spool, spool + [segment])
  {}

  lemma {:induction false} DiskAppended(spool: Spool, bad: seq<Segment>, clock: nat, nextId: nat, name: nat, now: nat)
    requires DiskOk(spool, bad, clock, nextId) && clock <= now && name <= now
    requires !Has(spool, name) && forall i :: 0 <= i < |spool| ==> spool[i].name <= name
    ensures DiskOk(spool + [Segment(name, nextId, [])], bad, now, nextId + 1)
    ensures Evolves(spool, spool + [Segment(name, nextId, [])])
    ensures IndexOf(spool + [Segment(name, nextId, [])], name) == |spool|
  {
    hide IndexOf;
    forall i | 0 <= i < |spool|
      ensures spool[i].name < name
    {
      IndexOfSorted(spool, i);
    }
    AppendedEvolves(spool, Segment(name, nextId, []));
    IndexOfSorted(spool + [Segment(name, nextId, [])], |spool|);
  }

  lemma DiskLater(spool: Spool, bad: seq<Segment>, clock: nat, nextId: nat, now: nat)
    requires DiskOk(spool, bad, clock, nextId) && clock <= now
    ensures DiskOk(spool, bad, now, nextId) && Sorted(spool)
    ensures forall i :: 0 <= i < |spool| ==> spool[i].name <= now
  {}

  /** What creating a segment for the present time does, when all names lie in the past. */
  lemma EnsureSegmentOk(spool: Spool, bad: seq<Segment>, clock: nat, nextId: nat, writer: Writer, now: nat)
    requires DiskOk(spool, bad, clock, nextId) && CurrentOk(writer, spool, clock) && clock <= now
    ensures var p := EnsureSegment(writer, spool, nextId, now);
            DiskOk(p.spool, bad, now, p.nextId) && Evolves(spool, p.spool) && CurrentOk(p.writer, p.spool, now)
  {
    hide IndexOf, Evolves, DiskOk;
    DiskLater(spool, bad, clock, nextId, now);
    EvolvesReflexive(spool);
    if writer.current.None? && !Has(spool, now) {
      DiskAppended(spool, bad, clock, nextId, now, now);
    }
  }

  lemma OpenOk(p: Prepared, bad: seq<Segment>, clock: nat)
    requires DiskOk(p.spool, bad, clock, p.nextId) && CurrentOk(p.writer, p.spool, clock)
    requires p.ok ==> p.writer.current.Some?
    ensures var q := Open(p);
            && DiskOk(q.spool, bad, clock, q.nextId) && Evolves(p.spool, q.spool) && CurrentOk(q.writer, q.spool, clock)
            && (q.ok ==> AtEnd(q.spool, q.writer.current.value))
  {
    hide IndexOf, Evolves, DiskOk;
    DiskLater(p.spool, bad, clock, p.nextId, clock);
    EvolvesReflexive(p.spool);
    if p.ok {
      var name := p.writer.current.value;
      if Has(p.spool, name) {
        LastName(p.spool, name);
      } else {
        DiskAppended(p.spool, bad, clock, p.nextId, name, clock);
      }
    }
  }

  predicate AtEnd(spool: Spool, name: nat) {
    spool != [] && spool[|spool| - 1].name == name && IndexOf(spool, name) == |spool| - 1
  }

  lemma LastName(spool: Spool, name: nat)
    requires Sorted(spool) && Has(spool, name) && forall i :: 0 <= i < |spool| ==> spool[i].name <= name
    ensures AtEnd(spool, name)
  {}

  lemma PrepareOk(s: System, bytes: nat, segmentMaxBytes: int, t1: nat, t2: nat)
    requires DiskOk(s.spool, s.bad, s.clock, s.nextId) && CurrentOk(s.writer, s.spool, s.clock) && s.clock <= t1 <= t2
    ensures var p := Open(Prepare(s.writer, s.spool, s.nextId, bytes, segmentMaxBytes, t1, t2));
            && DiskOk(p.spool, s.bad, t2, p.nextId) && Evolves(s.spool, p.spool) && CurrentOk(p.writer, p.spool, t2)
            && (p.ok ==> AtEnd(p.spool, p.writer.current.value))
  {
    hide IndexOf, Evolves, DiskOk, EnsureSegment, Open, AtEnd;
    EnsureSegmentOk(s.spool, s.bad, s.clock, s.nextId, s.writer, t1);
    var p1 := EnsureSegment(s.writer, s.spool, s.nextId, t1);
    DiskLater(p1.spool, s.bad, t1, p1.nextId, t2);
    EnsureSegmentOk(p1.spool, s.bad, t1, p1.nextId, IDLE_WRITER, t2);
    EvolvesTransitive(s.spool, p1.spool, EnsureSegment(IDLE_WRITER, p1.spool, p1.nextId, t2).spool);
    var p := Prepare(s.writer, s.spool, s.nextId, bytes, segmentMaxBytes, t1, t2);
    OpenOk(p, s.bad, t2);
    EvolvesTransitive(s.spool, p.spool, Open(p).spool);
  }

  /** The writer only does to the directory what the reader's proofs allow for. */
  lemma EnqueueEvolves(s: System, line: Bytes, t1: nat, t2: nat, cfg: Config)
    requires DiskOk(s.spool, s.bad, s.clock, s.nextId) && WriterOk(s.writer, s.job, s.spool, s.clock)
    ensures var s' := DoEnqueue(s, line, t1, t2, cfg);
            && DiskOk(s'.spool, s'.bad, s'.clock, s'.nextId) && WriterOk(s'.writer, s'.job, s'.spool, s'.clock)
            && Evolves(s.spool, s'.spool)
  {
    hide IndexOf, Evolves, Prepare, Open, Tail, CurrentOk, DiskOk;
    DiskLater(s.spool, s.bad, s.clock, s.nextId, s.clock);
    EvolvesReflexive(s.spool);
    if s.job.None? && WriterLine(line) && s.clock <= t1 <= t2 {
      PrepareOk(s, |line| + 1, cfg.segmentMaxBytes, t1, t2);
      var p := Open(Prepare(s.writer, s.spool, s.nextId, |line| + 1, cfg.segmentMaxBytes, t1, t2));
      if p.ok {
        var segment := p.spool[|p.spool| - 1];
        assert segment.content[..|segment.content|] == segment.content;
        assert (line + [NEWLINE])[0..] == line + [NEWLINE];
      }
    }
  }

  lemma JobAtEnd(s: System)
    requires DiskOk(s.spool, s.bad, s.clock, s.nextId) && WriterOk(s.writer, s.job, s.spool, s.clock) && s.job.Some?
    ensures AtEnd(s.spool, s.writer.current.value)
  {
    hide IndexOf, Tail;
    IndexOfSorted(s.spool, |s.spool| - 1);
  }

  lemma GrowLast(spool: Spool, bytes: Bytes, bad: seq<Segment>, clock: nat, nextId: nat)
    requires DiskOk(spool, bad, clock, nextId) && spool != []
    ensures var last := |spool| - 1;
            var grown := spool[last := spool[last].(content := spool[last].content + bytes)];
            DiskOk(grown, bad, clock, nextId) && Evolves(spool, grown)
  {}

  lemma JobWritten(job: Job, segment: Segment, name: nat, k: nat)
    requires JobOk(job, segment, name) && 0 < k < |job.left|
    ensures JobOk(job.(left := job.left[k..]), segment.(content := segment.content + job.left[..k]), name)
  {
    hide Tail;
    var all := job.line + [NEWLINE];
    var done := |all| - |job.left|;
    var content := segment.content;
    assert job.left[..k] == all[done..done + k];
    assert (content + job.left[..k])[job.at..] == content[job.at..] + job.left[..k] == all[..done + k];
    assert (content + job.left[..k])[..job.at] == content[..job.at];
    assert job.left[k..] == all[done + k..];
  }

  lemma WriteEvolves(s: System, k: nat, cfg: Config)
    requires DiskOk(s.spool, s.bad, s.clock, s.nextId) && WriterOk(s.writer, s.job, s.spool, s.clock)
    ensures var s' := DoWrite(s, k, cfg);
            && DiskOk(s'.spool, s'.bad, s'.clock, s'.nextId) && WriterOk(s'.writer, s'.job, s'.spool, s'.clock)
            && Evolves(s.spool, s'.spool)
  {
    hide IndexOf, Tail, Gained, JobOk, Evolves, DiskOk;
    DiskLater(s.spool, s.bad, s.clock, s.nextId, s.clock);
    EvolvesReflexive(s.spool);
    if s.job.Some? && 0 < k <= |s.job.value.left| {
      var job := s.job.value;
      JobAtEnd(s);
      GrowLast(s.spool, job.left[..k], s.bad, s.clock, s.nextId);
      if k < |job.left| {
        JobWritten(job, s.spool[|s.spool| - 1], s.writer.current.value, k);
      }
    }
  }

  /** A name that is new after some writer steps was not there before. */
  lemma NotYet(before: Spool, after: Spool, i: nat)
    requires Sorted(before) && Evolves(before, after) && |before| <= i < |after|
    ensures !Has(before, after[i].name)
  {
    hide IndexOf;
    if Has(before, after[i].name) {
      EvolvesAt(before, after, after[i].name);
      IndexOfSorted(after, i);
    }
  }

  lemma EvolvedOffsets(before: Spool, after: Spool, offsets: Offsets)
    requires Sorted(before) && OffsetsOk(before, offsets) && Evolves(before, after)
    ensures OffsetsOk(after, offsets)
  {
    hide IndexOf;
    forall i | 0 <= i < |after|
      ensures Boundary(after[i].content, OffsetOf(offsets, after[i].name))
    {
      if i >= |before| {
        NotYet(before, after, i);
      } else {
        assert Boundary(before[i].content, OffsetOf(offsets, before[i].name));
      }
    }
    forall n | n in offsets && !Has(after, n)
      ensures offsets[n] == 0
    {
      if Has(before, n) {
        EvolvesAt(before, after, n);
      }
    }
  }

  lemma EvolvedBatch(before: Spool, after: Spool, offsets: Offsets, b: Batch, parses: Bytes -> bool)
    requires Sorted(before) && BatchOk(before, offsets, b, parses) && Evolves(before, after)
    ensures BatchOk(after, offsets, b, parses)
  {
    hide IndexOf, Events;
    EvolvesAt(before, after, b.name);
    var i := IndexOf(before, b.name);
    assert after[i].content[b.start..b.end] == before[i].content[b.start..b.end];
  }

  lemma WriterKeeps(s: System, a: Action, cfg: Config)
    requires Inv(s, cfg) && (a.Enqueue? || a.Write?)
    ensures Inv(Next(s, a, cfg), cfg)
  {
    hide IndexOf, Evolves, DiskOk, WriterOk, OffsetsOk, BatchOk, Prepare, Open, Tail, Gained;
    match a {
      case Enqueue(line, t1, t2) => EnqueueEvolves(s, line, t1, t2, cfg);
      case Write(k) => WriteEvolves(s, k, cfg);
    }
    var s' := Next(s, a, cfg);
    DiskLater(s.spool, s.bad, s.clock, s.nextId, s.clock);
    EvolvedOffsets(s.spool, s'.spool, s.reader.offsets);
    if Outstanding(s).Some? && s.reader.last.Some? {
      EvolvedBatch(s.spool, s'.spool, s.reader.offsets, Outstanding(s).value, cfg.parses);
    }
  }

  // ---------------------------------------------------------------- reader steps

  lemma SameOffsets(spool: Spool, offsets: Offsets, offsets': Offsets)
    requires OffsetsOk(spool, offsets) && forall n :: OffsetOf(offsets', n) == OffsetOf(offsets, n)
    ensures OffsetsOk(spool, offsets')
  {
    hide IndexOf;
    forall n | n in offsets' && !Has(spool, n)
      ensures offsets'[n] == 0
    {
      assert offsets'[n] == OffsetOf(offsets', n) == OffsetOf(offsets, n);
    }
  }

  lemma SameBatch(spool: Spool, offsets: Offsets, offsets': Offsets, b: Batch, parses: Bytes -> bool)
    requires BatchOk(spool, offsets, b, parses) && forall n :: OffsetOf(offsets', n) == OffsetOf(offsets, n)
    ensures BatchOk(spool, offsets', b, parses)
  {
    hide IndexOf, Events;
  }

  /** The batch of segment i that a read hands over. */
  function BatchAt(spool: Spool, offsets: Offsets, i: nat, cfg: Config): Batch
    requires i < |spool| && Unread(spool[i], offsets)
  {
    var start := OffsetOf(offsets, spool[i].name);
    var r := Take(UnreadBytes(spool, offsets, i), cfg.maxEvents, cfg.maxBytes);
    var unread := UnreadBytes(spool, offsets, i);
    Batch(spool[i].name, spool[i].id, start, start + r.consumed, unread[..r.consumed], Parseable(r.texts, cfg.parses))
  }

  lemma ReadHolds(s: System, cfg: Config)
    requires ReaderFree(s) && DoRead(s, cfg).held.Some? && DoRead(s, cfg).reader.last.Some?
    ensures var i := Choose(s.spool, s.reader.offsets);
            i < |s.spool| && DoRead(s, cfg).held.value == BatchAt(s.spool, s.reader.offsets, i, cfg)
  {
    hide Take, Texts, Parseable, ParseAll, Touch, Choose, Unread, NoteStreak;
    var i := Choose(s.spool, s.reader.offsets);
    if i < |s.spool| {
      var r := Take(UnreadBytes(s.spool, s.reader.offsets, i), cfg.maxEvents, cfg.maxBytes);
      ParseAllEvents(r.texts, OffsetOf(s.reader.failures, s.spool[i].name), cfg.parses);
    }
  }

  /** What a read hands over is the next stretch of events of the oldest unread segment. */
  lemma ReadBatchOk(s: System, cfg: Config)
    requires Sorted(s.spool) && OffsetsOk(s.spool, s.reader.offsets) && ReaderFree(s)
    requires DoRead(s, cfg).held.Some? && DoRead(s, cfg).reader.last.Some?
    ensures BatchOk(s.spool, s.reader.offsets, DoRead(s, cfg).held.value, cfg.parses)
  {
    hide DoRead;
    ReadHolds(s, cfg);
    BatchAtOk(s.spool, s.reader.offsets, Choose(s.spool, s.reader.offsets), cfg);
  }

  lemma {:induction false} BatchAtOk(spool: Spool, offsets: Offsets, i: nat, cfg: Config)
    requires Sorted(spool) && OffsetsOk(spool, offsets) && i < |spool| && i == Choose(spool, offsets)
    ensures BatchOk(spool, offsets, BatchAt(spool, offsets, i, cfg), cfg.parses)
  {
    hide IndexOf, Take, Texts, Parseable, Boundary, Choose, Sorted, Unread;
    var unread := UnreadBytes(spool, offsets, i);
    var r := Take(unread, cfg.maxEvents, cfg.maxBytes);
    var start := OffsetOf(offsets, spool[i].name);
    TakenFits(unread, cfg.maxEvents, cfg.maxBytes, 1, 1);
    IndexOfSorted(spool, i);
    BoundaryWithin(spool[i].content, start, r.consumed);
  }

  lemma BoundaryWithin(content: Bytes, start: nat, n: nat)
    requires Boundary(content, start) && Boundary(content[start..], n)
    ensures Boundary(content, start + n) && content[start..start + n] == content[start..][..n]
  {}

  lemma ReadKeeps(s: System, cfg: Config)
    requires Inv(s, cfg)
    ensures Inv(DoRead(s, cfg), cfg)
  {
    hide IndexOf, Take, Texts, Parseable, ParseAll, Touch, Choose, DiskOk, WriterOk, OffsetsOk, BatchOk;
    var s' := DoRead(s, cfg);
    if ReaderFree(s) {
      SameOffsets(s.spool, s.reader.offsets, s'.reader.offsets);
      if s'.held.Some? && s'.reader.last.Some? {
        DiskLater(s.spool, s.bad, s.clock, s.nextId, s.clock);
        ReadBatchOk(s, cfg);
        SameBatch(s.spool, s.reader.offsets, s'.reader.offsets, s'.held.value, cfg.parses);
      }
    }
  }

  lemma ReadFailedKeeps(s: System, cfg: Config)
    requires Inv(s, cfg)
    ensures Inv(Next(s, ReadFailed, cfg), cfg)
  {
    hide IndexOf, Touch, Choose, DiskOk, WriterOk, OffsetsOk, BatchOk;
    SameOffsets(s.spool, s.reader.offsets, ReadFails(s.reader, s.spool).offsets);
  }

  lemma HasWithout(spool: Spool, i: nat, n: nat)
    requires Sorted(spool) && i < |spool|
    ensures Has(Without(spool, i), n) <==> Has(spool, n) && n != spool[i].name
  {
    hide IndexOf;
    WithoutSorted(spool, i);
    var rest := Without(spool, i);
    IndexOfSorted(spool, i);
    if Has(rest, n) {
      var k := IndexOf(rest, n);
      IndexOfSorted(spool, if k < i then k else k + 1);
    }
    if Has(spool, n) && n != spool[i].name {
      var k := IndexOf(spool, n);
      IndexOfSorted(rest, if k < i then k else k - 1);
    }
  }

  lemma WithoutDisk(spool: Spool, bad: seq<Segment>, clock: nat, nextId: nat, writer: Writer, job: Option<Job>, i: nat)
    requires DiskOk(spool, bad, clock, nextId) && WriterOk(writer, job, spool, clock) && i < |spool|
    requires job.Some? ==> writer.current != Some(spool[i].name)
    ensures DiskOk(Without(spool, i), bad + [spool[i]], clock, nextId)
    ensures WriterOk(writer, job, Without(spool, i), clock)
  {
    hide IndexOf, Without, Tail;
    WithoutSorted(spool, i);
  }

  lemma WithoutOffsets(spool: Spool, offsets: Offsets, i: nat)
    requires Sorted(spool) && OffsetsOk(spool, offsets) && i < |spool|
    ensures OffsetsOk(Without(spool, i), offsets - {spool[i].name})
  {
    hide IndexOf, Without;
    WithoutSorted(spool, i);
    var offsets' := offsets - {spool[i].name};
    forall n | n in offsets' && !Has(Without(spool, i), n)
      ensures offsets'[n] == 0
    {
      HasWithout(spool, i, n);
    }
    forall j | 0 <= j < |spool| - 1
      ensures Boundary(Without(spool, i)[j].content, OffsetOf(offsets', Without(spool, i)[j].name))
    {
      var k := if j < i then j else j + 1;
      assert Boundary(spool[k].content, OffsetOf(offsets, spool[k].name));
    }
  }

  lemma MoveAwayKeeps(s: System, ok: bool, cfg: Config)
    requires Inv(s, cfg)
    ensures Inv(DoMoveAway(s, ok), cfg)
  {
    hide IndexOf, Without, DiskOk, WriterOk, OffsetsOk, BatchOk;
    if s.poisoned.Some? {
      var name := s.poisoned.value;
      var i := IndexOf(s.spool, name);
      if ok && i < |s.spool| && !(s.job.Some? && s.writer.current == Some(name)) {
        DiskLater(s.spool, s.bad, s.clock, s.nextId, s.clock);
        WithoutDisk(s.spool, s.bad, s.clock, s.nextId, s.writer, s.job, i);
        WithoutOffsets(s.spool, s.reader.offsets, i);
      }
    }
  }

  lemma CommittedOffsets(spool: Spool, offsets: Offsets, b: Batch, parses: Bytes -> bool)
    requires Sorted(spool) && OffsetsOk(spool, offsets) && BatchOk(spool, offsets, b, parses)
    ensures OffsetsOk(spool, offsets[b.name := b.end])
  {
    hide IndexOf, Events;
    forall j | 0 <= j < |spool|
      ensures Boundary(spool[j].content, OffsetOf(offsets[b.name := b.end], spool[j].name))
    {
      IndexOfSorted(spool, j);
    }
  }

  lemma AcknowledgeKeeps(s: System, cfg: Config)
    requires Inv(s, cfg)
    ensures Inv(DoAcknowledge(s), cfg)
  {
    hide IndexOf, DiskOk, WriterOk, OffsetsOk, BatchOk;
    if s.due.Some? && Commits(s.reader, |s.due.value.events|) {
      DiskLater(s.spool, s.bad, s.clock, s.nextId, s.clock);
      CommittedOffsets(s.spool, s.reader.offsets, s.due.value, cfg.parses);
    }
  }

  /** The newest segment is never deleted. */
  lemma {:induction false} KeptLast(spool: Spool, offsets: Offsets, gone: set<nat>)
    requires Sorted(spool) && Sweepable(spool, offsets, gone) && spool != []
    ensures var kept := Keep(spool, gone);
            kept != [] && kept[|kept| - 1] == spool[|spool| - 1]
  {
    hide IndexOf, Keep;
    var last := |spool| - 1;
    IndexOfSorted(spool, last);
    KeepCut(spool, gone, last);
    KeepOne(spool[last], gone);
    assert spool[last + 1..] == [];
    KeepAll([], gone);
  }

  lemma {:induction false} KeptDisk(spool: Spool, bad: seq<Segment>, clock: nat, nextId: nat, gone: set<nat>)
    requires DiskOk(spool, bad, clock, nextId)
    ensures DiskOk(Keep(spool, gone), bad, clock, nextId)
  {
    hide Keep;
    var kept := Keep(spool, gone);
    KeepSorted(spool, gone);
    KeptIds(spool, gone, nextId);
    forall i, j | 0 <= i < |kept| && 0 <= j < |bad|
      ensures kept[i].id != bad[j].id
    {
      assert kept[i] in spool;
    }
    forall i | 0 <= i < |kept|
      ensures kept[i].name <= clock && kept[i].id < nextId
    {
      assert kept[i] in spool;
    }
  }

  lemma {:induction false} KeptIds(spool: Spool, gone: set<nat>, nextId: nat)
    requires forall i, j :: 0 <= i < j < |spool| ==> spool[i].id != spool[j].id
    ensures forall i, j :: 0 <= i < j < |Keep(spool, gone)| ==> Keep(spool, gone)[i].id != Keep(spool, gone)[j].id
    ensures forall s :: s in Keep(spool, gone) ==> s in spool
  {
    if spool != [] {
      KeptIds(spool[1..], gone, nextId);
      var rest := Keep(spool[1..], gone);
      forall j | 0 <= j < |rest|
        ensures rest[j].id != spool[0].id && rest[j] in spool
      {
        assert rest[j] in spool[1..];
      }
    }
  }

  lemma {:induction false} KeptWriter(s: System, gone: set<nat>)
    requires Sorted(s.spool) && WriterOk(s.writer, s.job, s.spool, s.clock)
    requires Sweepable(s.spool, s.reader.offsets, gone)
    ensures WriterOk(s.writer, s.job, Keep(s.spool, gone), s.clock)
  {
    hide IndexOf, Keep, JobOk, Sweepable;
    KeepSorted(s.spool, gone);
    var kept := Keep(s.spool, gone);
    if s.spool != [] {
      KeptLast(s.spool, s.reader.offsets, gone);
    }
    forall i | 0 <= i < |kept|
      ensures s.writer.current.Some? ==> kept[i].name <= s.writer.current.value
    {
      assert kept[i] in s.spool;
    }
  }

  lemma {:induction false} HasKept(spool: Spool, gone: set<nat>, n: nat)
    requires Sorted(spool)
    ensures Has(Keep(spool, gone), n) <==> Has(spool, n) && n !in gone
  {
    hide IndexOf, Keep;
    KeepSorted(spool, gone);
    var kept := Keep(spool, gone);
    if Has(kept, n) {
      var segment := kept[IndexOf(kept, n)];
      assert segment in kept;
      var i :| 0 <= i < |spool| && spool[i] == segment;
      IndexOfSorted(spool, i);
    }
    if Has(spool, n) && n !in gone {
      var segment := spool[IndexOf(spool, n)];
      assert segment in kept;
      var i :| 0 <= i < |kept| && kept[i] == segment;
      IndexOfSorted(kept, i);
    }
  }

  lemma {:induction false} KeptOffsets(spool: Spool, offsets: Offsets, gone: set<nat>)
    requires Sorted(spool) && OffsetsOk(spool, offsets)
    ensures OffsetsOk(Keep(spool, gone), offsets - gone)
  {
    hide IndexOf, Keep;
    var kept := Keep(spool, gone);
    KeepSorted(spool, gone);
    forall i | 0 <= i < |kept|
      ensures Boundary(kept[i].content, OffsetOf(offsets - gone, kept[i].name))
    {
      assert kept[i] in kept;
    }
    forall n | n in offsets - gone && !Has(kept, n)
      ensures (offsets - gone)[n] == 0
    {
      HasKept(spool, gone, n);
    }
  }

  lemma {:induction false} KeptBatch(spool: Spool, offsets: Offsets, gone: set<nat>, b: Batch, parses: Bytes -> bool)
    requires Sorted(spool) && BatchOk(spool, offsets, b, parses) && Sweepable(spool, offsets, gone)
    ensures BatchOk(Keep(spool, gone), offsets - gone, b, parses)
  {
    hide IndexOf, Events, Keep;
    var kept := Keep(spool, gone);
    var i := IndexOf(spool, b.name);
    assert b.name !in gone;
    KeepWithout(spool, gone, i);
    KeepSorted(spool, gone);
    KeepCut(spool, gone, i);
    var k := |Keep(spool[..i], gone)|;
    IndexOfSorted(kept, k);
    forall j | 0 <= j < k
      ensures !Unread(kept[j], offsets - gone)
    {
      KeepSorted(spool[..i], gone);
      assert kept[j] == Keep(spool[..i], gone)[j];
      assert kept[j] in spool[..i];
    }
  }

  lemma SweepKeeps(s: System, gone: set<nat>, cfg: Config)
    requires Inv(s, cfg)
    ensures Inv(DoSweep(s, gone), cfg)
  {
    hide IndexOf, Keep, BatchOk, DiskOk, WriterOk, OffsetsOk, Sweepable;
    if Sweepable(s.spool, s.reader.offsets, gone) {
      DiskLater(s.spool, s.bad, s.clock, s.nextId, s.clock);
      KeptDisk(s.spool, s.bad, s.clock, s.nextId, gone);
      KeptWriter(s, gone);
      KeptOffsets(s.spool, s.reader.offsets, gone);
      if Outstanding(s).Some? && s.reader.last.Some? {
        KeptBatch(s.spool, s.reader.offsets, gone, Outstanding(s).value, cfg.parses);
      }
    }
  }

  lemma ReplyKeeps(s: System, ok: bool, cfg: Config)
    requires Inv(s, cfg)
    ensures Inv(DoReply(s, ok), cfg)
  {
    hide IndexOf, BatchOk, DiskOk, WriterOk, OffsetsOk;
  }

  lemma RestartKeeps(s: System, cfg: Config)
    requires Inv(s, cfg)
    ensures Inv(DoCrash(s, cfg), cfg) && Inv(s.(job := None), cfg)
  {
    hide IndexOf, AllEvents, BatchOk, JobOk, DiskOk;
  }

  // ---------------------------------------------------------------- whole runs

  lemma InvInit(cfg: Config)
    ensures Inv(Init(), cfg)
  {}

  /** Every step, in any order, keeps the invariants. */
  lemma InvNext(s: System, a: Action, cfg: Config)
    requires Inv(s, cfg)
    ensures Inv(Next(s, a, cfg), cfg)
  {
    hide Inv, DoRead, DoMoveAway, DoAcknowledge, DoSweep, DoEnqueue, DoWrite, DoReply, DoCrash, ReadFails;
    match a
    case Enqueue(line, t1, t2) => WriterKeeps(s, a, cfg);
    case Write(k) => WriterKeeps(s, a, cfg);
    case Abort => RestartKeeps(s, cfg);
    case Read => ReadKeeps(s, cfg);
    case ReadFailed => ReadFailedKeeps(s, cfg);
    case MoveAway(ok) => MoveAwayKeeps(s, ok, cfg);
    case Reply(ok) => ReplyKeeps(s, ok, cfg);
    case Acknowledge => AcknowledgeKeeps(s, cfg);
    case Sweep(gone) => SweepKeeps(s, gone, cfg);
    case Crash => RestartKeeps(s, cfg);
  }

  lemma {:induction false} InvExec(s: System, actions: seq<Action>, cfg: Config)
    requires Inv(s, cfg)
    ensures Inv(Exec(s, actions, cfg), cfg)
    decreases |actions|
  {
    hide Inv, Next;
    if actions != [] {
      InvNext(s, actions[0], cfg);
      InvExec(Next(s, actions[0], cfg), actions[1..], cfg);
    }
  }
}
