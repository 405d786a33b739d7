/**
  At-least-once delivery over every interleaving: an event whose enqueue returned is, at every later
  moment, unread in a live segment, or was in a batch the server took, or lies in a quarantined file.
*/
module Delivery {
  import opened Wrappers
  import opened Lines
  import opened Queue
  import opened Pipeline
  import opened Invariants

  /** The line stands in the bytes, from `at` on, on a line of its own. */
  predicate OnLine(bytes: Bytes, at: nat, line: Bytes) {
    && at + |line| < |bytes|
    && Boundary(bytes, at)
    && bytes[at..at + |line|] == line && bytes[at + |line|] == NEWLINE
  }

  predicate OnDisk(r: Receipt, segment: Segment) {
    segment.id == r.id && OnLine(segment.content, r.at, r.line)
  }

  /** The batch was read from the very bytes of the enqueue, and the event at their place is the one enqueued. */
  predicate Carries(b: Batch, r: Receipt, parses: Bytes -> bool) {
    && b.id == r.id && b.start <= r.at
    && OnLine(b.bytes, r.at - b.start, r.line)
    && var n := |Events(b.bytes[..r.at - b.start], parses)|;
    && n < |b.events| && b.events[n] == r.line
  }

  /** An accepted batch carries the event. */
  predicate Delivered(r: Receipt, accepted: seq<Batch>, parses: Bytes -> bool) {
    exists b :: b in accepted && Carries(b, r, parses)
  }

  predicate Waiting(r: Receipt, spool: Spool, offsets: Offsets) {
    exists i :: 0 <= i < |spool| && OnDisk(r, spool[i]) && OffsetOf(offsets, spool[i].name) <= r.at
  }

  predicate Quarantined(r: Receipt, bad: seq<Segment>) {
    exists j :: 0 <= j < |bad| && OnDisk(r, bad[j])
  }

  predicate Accounted(s: System, r: Receipt, cfg: Config) {
    Waiting(r, s.spool, s.reader.offsets) || Delivered(r, s.accepted, cfg.parses) || Quarantined(r, s.bad)
  }

  predicate AllAccounted(s: System, cfg: Config) {
    forall r :: r in s.receipts && r.clean ==> WriterLine(r.line) && cfg.parses(r.line) && Accounted(s, r, cfg)
  }

  // ---------------------------------------------------------------- events of a stretch of bytes

  lemma {:induction false} ParseableOfConcat(a: seq<Bytes>, b: seq<Bytes>, parses: Bytes -> bool)
    ensures Parseable(a + b, parses) == Parseable(a, parses) + Parseable(b, parses)
  {
    if a == [] {
      assert a + b == b;
    } else {
      assert (a + b)[1..] == a[1..] + b;
      ParseableOfConcat(a[1..], b, parses);
    }
  }

  lemma EventsOfConcat(a: Bytes, b: Bytes, parses: Bytes -> bool)
    requires Complete(a)
    ensures Events(a + b, parses) == Events(a, parses) + Events(b, parses)
  {
    TextsOfConcat(a, b);
    ParseableOfConcat(Texts(a), Texts(b), parses);
  }

  lemma ParseableOne(text: Bytes, parses: Bytes -> bool)
    ensures Parseable([text], parses) == if parses(text) then [text] else []
  {
    assert [text][1..] == [];
    assert Parseable([], parses) == [];
  }

  lemma EventsOfLine(line: Bytes, parses: Bytes -> bool)
    requires WriterLine(line) && parses(line)
    ensures Events(line + [NEWLINE], parses) == [line]
  {
    hide Decode;
    LineEndOfLine(line, []);
    var all := line + [NEWLINE] + [];
    assert all == line + [NEWLINE];
    FirstLine(all, 0, 0);
    WriterLineText(line);
    NoTexts();
    assert Texts(all) == [line];
    ParseableOne(line, parses);
  }

  /** A whole line inside a stretch of complete lines is among its events. */
  lemma LineInStretch(s: Bytes, at: nat, line: Bytes, parses: Bytes -> bool)
    requires WriterLine(line) && parses(line)
    requires OnLine(s, at, line)
    ensures var n := |Events(s[..at], parses)|; n < |Events(s, parses)| && Events(s, parses)[n] == line
  {
    hide Texts, Parseable, WriterLine;
    var end := at + |line| + 1;
    var rest := s[end..];
    assert s == s[..at] + (line + [NEWLINE] + rest);
    EventsOfConcat(s[..at], line + [NEWLINE] + rest, parses);
    EventsOfConcat(line + [NEWLINE], rest, parses);
    EventsOfLine(line, parses);
  }

  // ---------------------------------------------------------------- steps

  lemma WaitingEvolves(r: Receipt, before: Spool, after: Spool, offsets: Offsets)
    requires Evolves(before, after) && Waiting(r, before, offsets)
    ensures Waiting(r, after, offsets)
  {
    var i :| 0 <= i < |before| && OnDisk(r, before[i]) && OffsetOf(offsets, before[i].name) <= r.at;
    assert OnDisk(r, after[i]);
  }

  lemma EvolvesAccounted(s: System, s': System, r: Receipt, cfg: Config)
    requires Accounted(s, r, cfg) && Evolves(s.spool, s'.spool)
    requires s'.reader.offsets == s.reader.offsets && s'.accepted == s.accepted && s'.bad == s.bad
    ensures Accounted(s', r, cfg)
  {
    hide Evolves, Waiting, Delivered, Quarantined;
    if Waiting(r, s.spool, s.reader.offsets) {
      WaitingEvolves(r, s.spool, s'.spool, s.reader.offsets);
    }
  }

  lemma SameAccounted(s: System, s': System, r: Receipt, cfg: Config)
    requires Accounted(s, r, cfg) && s'.spool == s.spool && s'.accepted == s.accepted && s'.bad == s.bad
    requires forall n :: OffsetOf(s'.reader.offsets, n) == OffsetOf(s.reader.offsets, n)
    ensures Accounted(s', r, cfg)
  {
    hide OnDisk, Delivered, Quarantined;
    if Waiting(r, s.spool, s.reader.offsets) {
      var i :| 0 <= i < |s.spool| && OnDisk(r, s.spool[i]) && OffsetOf(s.reader.offsets, s.spool[i].name) <= r.at;
      assert OffsetOf(s'.reader.offsets, s.spool[i].name) <= r.at;
    }
  }

  lemma {:induction false} TailClean(s: Bytes)
    ensures Tail(s) == [] <==> Complete(s)
    decreases |s|
  {
    var n := LineEnd(s);
    LineEndMeaning(s);
    if n > 0 {
      TailClean(s[n..]);
    }
  }

  /** The enqueue that has just returned: its line is on disk, and no offset has passed it. */
  lemma ReturnedWaiting(s: System, k: nat, cfg: Config)
    requires Inv(s, cfg) && s.job.Some? && k == |s.job.value.left| && s.job.value.tail == []
    ensures var s' := DoWrite(s, k, cfg);
            var job := s.job.value;
            Waiting(Receipt(job.id, job.at, job.line, true), s'.spool, s'.reader.offsets)
  {
    hide IndexOf, Tail, Gained, LastOk;
    var job := s.job.value;
    var last := |s.spool| - 1;
    var content := s.spool[last].content;
    JobAtEnd(s);
    var s' := DoWrite(s, k, cfg);
    assert s'.spool[last].content == content + job.left;
    TailClean(content[..job.at]);
    var offset := OffsetOf(s.reader.offsets, s.spool[last].name);
    assert Boundary(content, offset);
    LineAppended(content, job.at, job.line, job.left, offset);
    assert OnDisk(Receipt(job.id, job.at, job.line, true), s'.spool[last]);
  }

  /** The rest of a line is appended: the line is there from `at` on, and no line boundary lies inside it. */
  lemma LineAppended(content: Bytes, at: nat, line: Bytes, left: Bytes, offset: nat)
    requires at <= |content| && content[at..] + left == line + [NEWLINE] && left != []
    requires Boundary(content, offset) && NEWLINE !in line
    ensures var grown := content + left;
            && grown[..at] == content[..at] && |grown| == at + |line| + 1
            && grown[at..at + |line|] == line && grown[at..][..|line|] == line && grown[at + |line|] == NEWLINE
    ensures offset <= at
  {
    var grown := content + left;
    assert grown[at..] == line + [NEWLINE];
    forall p | at <= p < |content|
      ensures content[p] != NEWLINE
    {
      assert content[p] == content[at..][p - at] == (line + [NEWLINE])[p - at];
    }
  }

  lemma WriterAccounts(s: System, a: Action, cfg: Config)
    requires Inv(s, cfg) && AllAccounted(s, cfg) && (a.Enqueue? || a.Write?)
    requires s.job.Some? ==> cfg.parses(s.job.value.line)
    ensures AllAccounted(Next(s, a, cfg), cfg)
  {
    hide IndexOf, Tail, Gained, Evolves, Inv, WriterLine, Accounted, Prepare, Open;
    var s' := Next(s, a, cfg);
    assert Evolves(s.spool, s'.spool) by {
      InvParts(s, cfg);
      match a {
        case Enqueue(line, t1, t2) => EnqueueEvolves(s, line, t1, t2, cfg);
        case Write(k) => WriteEvolves(s, k, cfg);
      }
    }
    forall r | r in s'.receipts && r.clean
      ensures WriterLine(r.line) && cfg.parses(r.line) && Accounted(s', r, cfg)
    {
      if r in s.receipts {
        EvolvesAccounted(s, s', r, cfg);
      } else {
        ReturnedWaiting(s, a.k, cfg);
        JobLine(s, cfg);
        WaitingAccounted(s', r, cfg);
      }
    }
  }

  lemma InvParts(s: System, cfg: Config)
    requires Inv(s, cfg)
    ensures DiskOk(s.spool, s.bad, s.clock, s.nextId) && WriterOk(s.writer, s.job, s.spool, s.clock)
    ensures OffsetsOk(s.spool, s.reader.offsets) && LastOk(s, cfg.parses) && Sorted(s.spool)
  {
    hide WriterOk, OffsetsOk, LastOk;
  }

  lemma JobLine(s: System, cfg: Config)
    requires Inv(s, cfg) && s.job.Some?
    ensures WriterLine(s.job.value.line)
  {}

  lemma WaitingAccounted(s: System, r: Receipt, cfg: Config)
    requires Waiting(r, s.spool, s.reader.offsets)
    ensures Accounted(s, r, cfg)
  {
    hide Waiting, Delivered, Quarantined;
  }

  lemma WithoutWaiting(r: Receipt, spool: Spool, offsets: Offsets, k: nat)
    requires Sorted(spool) && k < |spool| && Waiting(r, spool, offsets)
    ensures Waiting(r, Without(spool, k), offsets - {spool[k].name}) || OnDisk(r, spool[k])
  {
    hide OnDisk, Without;
    WithoutSorted(spool, k);
    var i :| 0 <= i < |spool| && OnDisk(r, spool[i]) && OffsetOf(offsets, spool[i].name) <= r.at;
    if i != k {
      var j := if i < k then i else i - 1;
      assert Without(spool, k)[j] == spool[i] && OnDisk(r, Without(spool, k)[j]);
    }
  }

  lemma MoreQuarantined(r: Receipt, bad: seq<Segment>, segment: Segment)
    requires Quarantined(r, bad) || OnDisk(r, segment)
    ensures Quarantined(r, bad + [segment])
  {
    hide OnDisk;
    if Quarantined(r, bad) {
      var j :| 0 <= j < |bad| && OnDisk(r, bad[j]);
      assert OnDisk(r, (bad + [segment])[j]);
    } else {
      assert OnDisk(r, (bad + [segment])[|bad|]);
    }
  }

  lemma MoveAwayAccounts(s: System, ok: bool, r: Receipt, cfg: Config)
    requires Sorted(s.spool) && Accounted(s, r, cfg)
    ensures Accounted(DoMoveAway(s, ok), r, cfg)
  {
    hide IndexOf, OnDisk, Delivered, Without, Waiting, Quarantined;
    if s.poisoned.Some? {
      var k := IndexOf(s.spool, s.poisoned.value);
      if k < |s.spool| {
        if Waiting(r, s.spool, s.reader.offsets) {
          WithoutWaiting(r, s.spool, s.reader.offsets, k);
        }
        if Quarantined(r, s.bad) || OnDisk(r, s.spool[k]) {
          MoreQuarantined(r, s.bad, s.spool[k]);
        }
      }
    }
  }

  lemma ReplyAccounts(s: System, ok: bool, r: Receipt, cfg: Config)
    requires Accounted(s, r, cfg)
    ensures Accounted(DoReply(s, ok), r, cfg)
  {
    hide Waiting, Quarantined;
  }

  /** Acknowledging passes an event by only after a batch containing it was accepted. */
  lemma AcknowledgeAccounts(s: System, r: Receipt, cfg: Config)
    requires Inv(s, cfg) && Accounted(s, r, cfg) && WriterLine(r.line) && cfg.parses(r.line)
    ensures Accounted(DoAcknowledge(s), r, cfg)
  {
    hide IndexOf, Events, WriterLine;
    var s' := DoAcknowledge(s);
    if Waiting(r, s.spool, s.reader.offsets) {
      var i :| 0 <= i < |s.spool| && OnDisk(r, s.spool[i]) && OffsetOf(s.reader.offsets, s.spool[i].name) <= r.at;
      if OffsetOf(s'.reader.offsets, s.spool[i].name) > r.at {
        var b := s.due.value;
        IndexOfSorted(s.spool, i);
        CoveredByBatch(s.spool[i], b, r, cfg.parses);
        assert b in s'.accepted;
      } else {
        assert OnDisk(r, s'.spool[i]);
      }
    }
  }

  lemma CoveredByBatch(segment: Segment, b: Batch, r: Receipt, parses: Bytes -> bool)
    requires OnDisk(r, segment) && segment.id == b.id && WriterLine(r.line) && parses(r.line)
    requires b.start <= r.at < b.end && Boundary(segment.content, b.end)
    requires segment.content[b.start..b.end] == b.bytes && Events(b.bytes, parses) == b.events
    ensures Carries(b, r, parses)
  {
    hide Events;
    var content := segment.content;
    var end := r.at + |r.line|;
    forall p | r.at <= p < end
      ensures content[p] != NEWLINE
    {
      assert content[p] == content[r.at..end][p - r.at] == r.line[p - r.at];
    }
    assert b.bytes[r.at - b.start..end - b.start] == content[r.at..end];
    LineInStretch(b.bytes, r.at - b.start, r.line, parses);
  }

  lemma SweepAccounts(s: System, gone: set<nat>, r: Receipt, cfg: Config)
    requires Inv(s, cfg) && Accounted(s, r, cfg)
    ensures Accounted(DoSweep(s, gone), r, cfg)
  {
    hide IndexOf, Keep, Delivered, Quarantined;
    var s' := DoSweep(s, gone);
    InvParts(s, cfg);
    if s'.spool != s.spool && Waiting(r, s.spool, s.reader.offsets) {
      var i :| 0 <= i < |s.spool| && OnDisk(r, s.spool[i]) && OffsetOf(s.reader.offsets, s.spool[i].name) <= r.at;
      IndexOfSorted(s.spool, i);
      KeepSorted(s.spool, gone);
      assert s.spool[i] in s'.spool;
      var j :| 0 <= j < |s'.spool| && s'.spool[j] == s.spool[i];
      assert OnDisk(r, s'.spool[j]);
    } else if Sweepable(s.spool, s.reader.offsets, gone) && Waiting(r, s.spool, s.reader.offsets) {
      var i :| 0 <= i < |s.spool| && OnDisk(r, s.spool[i]) && OffsetOf(s.reader.offsets, s.spool[i].name) <= r.at;
      assert OffsetOf(s'.reader.offsets, s.spool[i].name) <= r.at;
    }
  }

  lemma CrashAccounts(s: System, r: Receipt, cfg: Config)
    requires Accounted(s, r, cfg)
    ensures Accounted(DoCrash(s, cfg), r, cfg)
  {
    hide OnDisk, Delivered, Quarantined, AllEvents;
    if Waiting(r, s.spool, s.reader.offsets) {
      var i :| 0 <= i < |s.spool| && OnDisk(r, s.spool[i]) && OffsetOf(s.reader.offsets, s.spool[i].name) <= r.at;
      assert OnDisk(r, s.spool[i]) && OffsetOf(map[], s.spool[i].name) <= r.at;
    }
  }

  lemma ReceiptsStay(s: System, a: Action, cfg: Config)
    requires !a.Enqueue? && !a.Write?
    ensures Next(s, a, cfg).receipts == s.receipts
  {
    hide Touch, Choose, Take, ParseAll, ReadFails, Keep, Sweepable, IndexOf, AllEvents, Commit;
  }

  lemma QuietStep(s: System, a: Action, cfg: Config)
    requires a.Abort? || a.Read? || a.ReadFailed?
    ensures var s' := Next(s, a, cfg);
            && s'.spool == s.spool && s'.accepted == s.accepted && s'.bad == s.bad
            && forall n :: OffsetOf(s'.reader.offsets, n) == OffsetOf(s.reader.offsets, n)
  {
    hide Choose, Take, ParseAll, NoteStreak;
    ReadFailedOffsets(s);
  }

  lemma StepAccounts(s: System, a: Action, cfg: Config)
    requires Inv(s, cfg) && AllAccounted(s, cfg) && (s.job.Some? ==> cfg.parses(s.job.value.line))
    ensures AllAccounted(Next(s, a, cfg), cfg)
  {
    hide Inv, Accounted, WriterLine, DoEnqueue, DoWrite, DoRead, DoMoveAway, DoReply, DoAcknowledge, DoSweep, DoCrash;
    hide ReadFails;
    var s' := Next(s, a, cfg);
    if a.Enqueue? || a.Write? {
      WriterAccounts(s, a, cfg);
    } else {
      ReceiptsStay(s, a, cfg);
      forall r | r in s'.receipts && r.clean
        ensures WriterLine(r.line) && cfg.parses(r.line) && Accounted(s', r, cfg)
      {
        match a
        case MoveAway(ok) => InvParts(s, cfg); MoveAwayAccounts(s, ok, r, cfg);
        case Reply(ok) => ReplyAccounts(s, ok, r, cfg);
        case Acknowledge => AcknowledgeAccounts(s, r, cfg);
        case Sweep(gone) => SweepAccounts(s, gone, r, cfg);
        case Crash => CrashAccounts(s, r, cfg);
        case _ => QuietStep(s, a, cfg); SameAccounted(s, s', r, cfg);
      }
    }
  }

  lemma ReadFailedOffsets(s: System)
    ensures forall n :: OffsetOf(ReadFails(s.reader, s.spool).offsets, n) == OffsetOf(s.reader.offsets, n)
  {}

  lemma JobParses(s: System, a: Action, cfg: Config)
    requires s.job.Some? ==> cfg.parses(s.job.value.line)
    ensures var s' := Next(s, a, cfg);
            s'.job.Some? ==> cfg.parses(s'.job.value.line)
  {
    hide IndexOf, Tail, Gained, Prepare, Open, AllEvents, Keep, Queue.Read, Without, Choose, Take;
  }

  lemma {:induction false} AccountedAlways(s: System, actions: seq<Action>, cfg: Config)
    requires Inv(s, cfg) && AllAccounted(s, cfg) && (s.job.Some? ==> cfg.parses(s.job.value.line))
    ensures AllAccounted(Exec(s, actions, cfg), cfg)
    decreases |actions|
  {
    hide Inv, Next, AllAccounted;
    if actions != [] {
      InvNext(s, actions[0], cfg);
      StepAccounts(s, actions[0], cfg);
      JobParses(s, actions[0], cfg);
      AccountedAlways(Next(s, actions[0], cfg), actions[1..], cfg);
    }
  }

  /**
    At least once: in every run from an empty directory, whatever the interleaving of writer, reader,
    shipper, server, deletions, crashes and restarts, every event whose enqueue started on a fresh line and
    returned is accounted for.
  */
  lemma {:induction false} AtLeastOnce(actions: seq<Action>, cfg: Config, r: Receipt)
    requires r in Exec(Init(), actions, cfg).receipts && r.clean
    ensures Accounted(Exec(Init(), actions, cfg), r, cfg)
  {
    hide Exec, Accounted, Inv;
    InvInit(cfg);
    AccountedAlways(Init(), actions, cfg);
  }
}
