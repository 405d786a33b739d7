/**
  At-least-once, exactly: over every run an event whose enqueue returned is accounted for if, and only if, that
  enqueue found no torn line at the end of the file.
*/
module Exactness {
  import opened Wrappers

  import opened Lines
  import opened Queue
  import opened Pipeline
  import opened Invariants
  import opened Delivery
  import opened Ordering

  // ---------------------------------------------------------------- what receipts and batches say about files

  /** The file has the bytes of the receipt in their place; they begin a line exactly if the receipt is clean. */
  predicate Holds(content: Bytes, r: Receipt) {
    && r.at + |r.line| < |content|
    && (Boundary(content, r.at) <==> r.clean)
  }

  /** If the batch covers the receipt's bytes, and they begin a line in it, the receipt is clean. */
  predicate Fair(b: Batch, r: Receipt) {
    b.id == r.id && b.start <= r.at && OnLine(b.bytes, r.at - b.start, r.line) ==> r.clean
  }

  /** The batch ends within the file. */
  predicate Within(b: Batch, segment: Segment) {
    b.id == segment.id ==> b.start + |b.bytes| <= |segment.content|
  }

  predicate InPlay(s: System, b: Batch) {
    b in s.accepted || s.held == Some(b)
  }

  ghost predicate ReceiptsOk(receipts: seq<Receipt>, spool: Spool, bad: seq<Segment>, nextId: nat) {
    forall r :: r in receipts ==>
      && r.id < nextId
      && (forall segment :: segment in spool && segment.id == r.id ==> Holds(segment.content, r))
      && (forall segment :: segment in bad && segment.id == r.id ==> Holds(segment.content, r))
  }

  ghost predicate BatchesOk(s: System) {
    forall b :: InPlay(s, b) ==>
      && b.id < s.nextId
      && (forall r :: r in s.receipts ==> Fair(b, r))
      && (forall segment :: segment in s.spool ==> Within(b, segment))
  }

  ghost predicate Faithful(s: System) {
    ReceiptsOk(s.receipts, s.spool, s.bad, s.nextId) && BatchesOk(s)
  }

  // ---------------------------------------------------------------- writer steps

  /** Every segment after the step is one from before, possibly longer, or new. */
  ghost predicate Grown(before: Spool, after: Spool, nextId: nat) {
    forall segment :: segment in after ==>
      segment.id >= nextId ||
      exists was :: was in before && was.id == segment.id && was.content <= segment.content
  }

  lemma EnqueueGrown(s: System, line: Bytes, t1: nat, t2: nat, cfg: Config)
    ensures var s' := DoEnqueue(s, line, t1, t2, cfg);
            Grown(s.spool, s'.spool, s.nextId) && s'.nextId >= s.nextId
  {
    hide IndexOf, Tail;
    var s' := DoEnqueue(s, line, t1, t2, cfg);
    forall segment | segment in s'.spool && segment.id < s.nextId
      ensures segment in s.spool
    {}
  }

  lemma WriteGrown(s: System, k: nat, cfg: Config)
    requires Inv(s, cfg)
    ensures var s' := DoWrite(s, k, cfg);
            Grown(s.spool, s'.spool, s.nextId) && s'.nextId == s.nextId
  {
    hide IndexOf, Tail, Gained, Evolves;
    InvParts(s, cfg);
    WriteEvolves(s, k, cfg);
    var s' := DoWrite(s, k, cfg);
    EvolvesGrown(s.spool, s'.spool, s.nextId);
  }

  lemma EvolvesGrown(before: Spool, after: Spool, nextId: nat)
    requires Evolves(before, after) && |after| == |before|
    ensures Grown(before, after, nextId)
  {
    forall segment | segment in after
      ensures exists was :: was in before && was.id == segment.id && was.content <= segment.content
    {
      var i :| 0 <= i < |after| && after[i] == segment;
      assert before[i] in before;
    }
  }

  lemma GrownHolds(s: System, spool: Spool, nextId: nat)
    requires Faithful(s) && Grown(s.spool, spool, s.nextId) && nextId >= s.nextId
    ensures ReceiptsOk(s.receipts, spool, s.bad, nextId)
    ensures forall b, segment :: InPlay(s, b) && segment in spool ==> Within(b, segment)
  {
    hide Boundary, InPlay;
    forall r, segment | r in s.receipts && segment in spool && segment.id == r.id
      ensures Holds(segment.content, r)
    {
      var was :| was in s.spool && was.id == segment.id && was.content <= segment.content;
      assert Holds(was.content, r);
      SameBoundary(was.content, segment.content, r.at);
    }
    forall b, segment | InPlay(s, b) && segment in spool
      ensures Within(b, segment)
    {
      if b.id == segment.id {
        var was :| was in s.spool && was.id == segment.id && was.content <= segment.content;
        assert Within(b, was);
      }
    }
  }

  lemma SameBoundary(a: Bytes, b: Bytes, i: nat)
    requires a <= b && i <= |a|
    ensures Boundary(a, i) <==> Boundary(b, i)
  {}

  /** The receipt of an enqueue that has just returned. */
  lemma NewReceipt(s: System, cfg: Config)
    requires Inv(s, cfg) && Faithful(s) && s.job.Some?
    ensures var job := s.job.value;
            var s' := DoWrite(s, |job.left|, cfg);
            var r := Receipt(job.id, job.at, job.line, job.tail == []);
            && s'.receipts == s.receipts + [r] && r.id < s.nextId
            && (forall segment :: segment in s'.spool && segment.id == r.id ==> Holds(segment.content, r))
            && (forall segment :: segment in s.bad && segment.id == r.id ==> Holds(segment.content, r))
            && (forall b :: InPlay(s, b) ==> Fair(b, r))
  {
    hide IndexOf, Tail, Gained, LastOk, InPlay, Boundary, OffsetsOk;
    var job := s.job.value;
    var last := |s.spool| - 1;
    var content := s.spool[last].content;
    JobAtEnd(s);
    var s' := DoWrite(s, |job.left|, cfg);
    var r := Receipt(job.id, job.at, job.line, job.tail == []);
    assert job.left[..|job.left|] == job.left;
    assert s'.spool == s.spool[last := s.spool[last].(content := content + job.left)];
    TailClean(content[..job.at]);
    AtBoundary(content, job.left, job.at);
    assert |content| + |job.left| == job.at + |job.line| + 1;
    forall segment | segment in s'.spool && segment.id == r.id
      ensures Holds(segment.content, r)
    {
      var i :| 0 <= i < |s'.spool| && s'.spool[i] == segment;
      assert i == last;
    }
    forall b | InPlay(s, b)
      ensures Fair(b, r)
    {
      assert s.spool[last] in s.spool && Within(b, s.spool[last]);
    }
  }

  lemma AtBoundary(content: Bytes, more: Bytes, at: nat)
    requires at <= |content|
    ensures Boundary(content + more, at) <==> Complete(content[..at])
  {
    if at > 0 {
      assert (content + more)[at - 1] == content[..at][at - 1];
    }
  }

  lemma WriterFaithful(s: System, a: Action, cfg: Config)
    requires Inv(s, cfg) && Faithful(s) && (a.Enqueue? || a.Write?)
    ensures Faithful(Next(s, a, cfg))
  {
    hide Inv, Holds, Fair, Within, Grown, DoEnqueue, DoWrite;
    var s' := Next(s, a, cfg);
    match a {
      case Enqueue(line, t1, t2) =>
        EnqueueGrown(s, line, t1, t2, cfg);
        EnqueueOnly(s, line, t1, t2, cfg);
        GrownHolds(s, s'.spool, s'.nextId);
      case Write(k) =>
        WriteGrown(s, k, cfg);
        WriteOnly(s, k, cfg);
        GrownHolds(s, s'.spool, s'.nextId);
        if s'.receipts != s.receipts {
          NewReceipt(s, cfg);
        }
    }
  }

  lemma EnqueueOnly(s: System, line: Bytes, t1: nat, t2: nat, cfg: Config)
    ensures var s' := DoEnqueue(s, line, t1, t2, cfg);
            s'.receipts == s.receipts && s'.bad == s.bad && s'.accepted == s.accepted && s'.held == s.held
  {
    hide IndexOf, Prepare, Open, Tail;
  }

  lemma WriteOnly(s: System, k: nat, cfg: Config)
    ensures var s' := DoWrite(s, k, cfg);
            && s'.bad == s.bad && s'.accepted == s.accepted && s'.held == s.held
            && (s'.receipts == s.receipts || (s.job.Some? && k == |s.job.value.left|))
  {
    hide IndexOf, AppendTo, Gained;
  }

  // ---------------------------------------------------------------- other steps

  /** What is read from a file says of its receipts what the file says. */
  lemma ReadFaithful(s: System, cfg: Config)
    requires Inv(s, cfg) && Faithful(s)
    ensures Faithful(DoRead(s, cfg))
  {
    hide Choose, Take, ParseAll, Touch, NoteStreak, DiskOk, WriterOk, LastOk, Holds, Fair, Within;
    var s' := DoRead(s, cfg);
    if ReaderFree(s) && s'.held.Some? {
      var i := Choose(s.spool, s.reader.offsets);
      var segment := s.spool[i];
      var b := s'.held.value;
      var start := OffsetOf(s.reader.offsets, segment.name);
      assert segment in s.spool && segment.id < s.nextId by { IdBelow(s, i, cfg); }
      var n := |b.bytes|;
      assert b.bytes == segment.content[start..][..n];
      forall r | r in s.receipts
        ensures Fair(b, r)
      {
        if r.id == segment.id {
          assert Holds(segment.content, r);
          StretchFair(segment.content, start, n, b, r);
        } else {
          OtherFile(b, r);
        }
      }
      forall other | other in s.spool
        ensures Within(b, other)
      {
        SameFile(s, i, other, b, cfg);
      }
      forall b' | InPlay(s', b')
        ensures b' == b || InPlay(s, b')
      {}
    } else {
      assert forall b :: InPlay(s', b) <==> InPlay(s, b);
    }
  }

  lemma IdBelow(s: System, i: nat, cfg: Config)
    requires Inv(s, cfg) && i < |s.spool|
    ensures s.spool[i].id < s.nextId
  {}

  lemma OtherFile(b: Batch, r: Receipt)
    requires b.id != r.id
    ensures Fair(b, r)
  {}

  lemma SameFile(s: System, i: nat, other: Segment, b: Batch, cfg: Config)
    requires Inv(s, cfg) && i < |s.spool| && other in s.spool
    requires b.id == s.spool[i].id && b.start + |b.bytes| <= |s.spool[i].content|
    ensures Within(b, other)
  {
    hide WriterOk, OffsetsOk, LastOk;
    var j :| 0 <= j < |s.spool| && s.spool[j] == other;
    if j != i {
      assert s.spool[i].id != s.spool[j].id;
    }
  }

  lemma StretchFair(content: Bytes, start: nat, n: nat, b: Batch, r: Receipt)
    requires Boundary(content, start) && start + n <= |content| && b.bytes == content[start..][..n] && b.start == start
    requires Holds(content, r)
    ensures Fair(b, r)
  {
    if b.id == r.id && start <= r.at && OnLine(b.bytes, r.at - start, r.line) {
      if r.at > start {
        assert b.bytes[r.at - start - 1] == content[r.at - 1];
      }
      assert Boundary(content, r.at);
    }
  }

  /** Steps that only take files away, set them aside, or change what is remembered. */
  lemma FewerFaithful(s: System, s': System)
    requires Faithful(s) && s'.receipts == s.receipts && s'.nextId == s.nextId
    requires forall segment :: segment in s'.spool ==> segment in s.spool
    requires forall segment :: segment in s'.bad ==> segment in s.bad || segment in s.spool
    requires forall b :: InPlay(s', b) ==> InPlay(s, b)
    ensures Faithful(s')
  {
    hide Holds, Fair, Within, InPlay;
  }

  lemma StepFaithful(s: System, a: Action, cfg: Config)
    requires Inv(s, cfg) && Faithful(s)
    ensures Faithful(Next(s, a, cfg))
  {
    hide Inv, Faithful, DoRead, DoEnqueue, DoWrite, AllEvents, Touch, Choose, ReadFails, Keep, IndexOf, Sweepable;
    var s' := Next(s, a, cfg);
    match a
    case Enqueue(_, _, _) => WriterFaithful(s, a, cfg);
    case Write(_) => WriterFaithful(s, a, cfg);
    case Read => ReadFaithful(s, cfg);
    case Sweep(gone) =>
      InvParts(s, cfg);
      KeepSorted(s.spool, gone);
      FewerFaithful(s, s');
    case _ => FewerFaithful(s, s');
  }

  lemma {:induction false} FaithfulAlways(s: System, actions: seq<Action>, cfg: Config)
    requires Inv(s, cfg) && Faithful(s)
    ensures Faithful(Exec(s, actions, cfg)) && Inv(Exec(s, actions, cfg), cfg)
    decreases |actions|
  {
    hide Inv, Faithful, Next;
    if actions != [] {
      InvNext(s, actions[0], cfg);
      StepFaithful(s, actions[0], cfg);
      FaithfulAlways(Next(s, actions[0], cfg), actions[1..], cfg);
    }
  }

  // ---------------------------------------------------------------- the theorem

  lemma AccountedIsClean(s: System, r: Receipt, cfg: Config)
    requires Faithful(s) && r in s.receipts && Accounted(s, r, cfg)
    ensures r.clean
  {
    hide Events;
    if Waiting(r, s.spool, s.reader.offsets) {
      var i :| 0 <= i < |s.spool| && OnDisk(r, s.spool[i]) && OffsetOf(s.reader.offsets, s.spool[i].name) <= r.at;
      assert s.spool[i] in s.spool && Holds(s.spool[i].content, r);
    } else if Quarantined(r, s.bad) {
      var j :| 0 <= j < |s.bad| && OnDisk(r, s.bad[j]);
      assert s.bad[j] in s.bad && Holds(s.bad[j].content, r);
    } else {
      var b :| b in s.accepted && Carries(b, r, cfg.parses);
      assert InPlay(s, b) && Fair(b, r);
    }
  }

  /**
    In every run from an empty directory, whatever the interleaving, an event whose enqueue returned is waiting to be
    read, or was in its own place in an accepted batch, or lies in a quarantined file - exactly if its enqueue found
    no torn line at the end of the file.
  */
  lemma {:induction false} AccountedExactly(actions: seq<Action>, cfg: Config, r: Receipt)
    requires r in Exec(Init(), actions, cfg).receipts
    ensures Accounted(Exec(Init(), actions, cfg), r, cfg) <==> r.clean
  {
    hide Exec, Accounted, Inv, Faithful;
    InvInit(cfg);
    FaithfulInit();
    FaithfulAlways(Init(), actions, cfg);
    if r.clean {
      AtLeastOnce(actions, cfg, r);
    }
    if Accounted(Exec(Init(), actions, cfg), r, cfg) {
      AccountedIsClean(Exec(Init(), actions, cfg), r, cfg);
    }
  }

  lemma FaithfulInit()
    ensures Faithful(Init())
  {}

  // ---------------------------------------------------------------- torn lines begin with a brace

  /** The unfinished line at the end of the file, if there is one, begins as a JSON object does. */
  predicate BraceTail(content: Bytes) {
    Tail(content) == [] || Tail(content)[0] == OPEN_BRACE
  }

  predicate Braced(spool: Spool) {
    forall i :: 0 <= i < |spool| ==> BraceTail(spool[i].content)
  }

  /** More bytes of an enqueued line. */
  lemma PieceBraced(content: Bytes, at: nat, line: Bytes, done: nat, k: nat)
    requires at <= |content| && BraceTail(content[..at]) && WriterLine(line)
    requires done + k <= |line| + 1 && content[at..] == (line + [NEWLINE])[..done]
    ensures BraceTail(content + (line + [NEWLINE])[done..done + k])
  {
    hide Tail, Events;
    var all := line + [NEWLINE];
    var grown := content + all[done..done + k];
    var x := content[..at];
    assert all[..done] + all[done..done + k] == all[..done + k];
    assert content == x + content[at..] && grown == x + all[..done + k];
    if done + k <= |line| {
      assert all[..done + k] == line[..done + k];
      EventsUnfinished(x, line[..done + k], _ => true);
      assert Tail(grown) == Tail(x) + line[..done + k];
    } else {
      assert all[..done + k] == all && grown == x + line + [NEWLINE];
      EventsFinished(x, line, _ => true);
      TailClean(grown);
    }
  }

  /** The enqueue in progress is of an event, and the file held a braced tail, or none, when it began. */
  predicate JobBraced(s: System, cfg: Config) {
    s.job.Some? ==>
      && cfg.parses(s.job.value.line)
      && (s.job.value.tail == [] || s.job.value.tail[0] == OPEN_BRACE)
  }

  lemma StepBraced(s: System, a: Action, cfg: Config)
    requires Inv(s, cfg) && Braced(s.spool) && JobBraced(s, cfg)
    ensures var s' := Next(s, a, cfg); Braced(s'.spool) && JobBraced(s', cfg)
  {
    hide Inv, BraceTail, DoRead, DoEnqueue, DoWrite, AllEvents, Touch, Choose, ReadFails, Keep, IndexOf, Sweepable;
    var s' := Next(s, a, cfg);
    match a
    case Enqueue(line, t1, t2) => EnqueueBraced(s, line, t1, t2, cfg);
    case Write(k) => WriteBraced(s, k, cfg);
    case Read => ReadBraced(s, cfg);
    case Sweep(gone) =>
      InvParts(s, cfg);
      KeepSorted(s.spool, gone);
      FewerBraced(s.spool, s'.spool);
    case _ => FewerBraced(s.spool, s'.spool);
  }

  lemma FewerBraced(spool: Spool, fewer: Spool)
    requires Braced(spool) && forall segment :: segment in fewer ==> segment in spool
    ensures Braced(fewer)
  {
    hide BraceTail;
    forall i | 0 <= i < |fewer|
      ensures BraceTail(fewer[i].content)
    {
      assert fewer[i] in spool;
    }
  }

  lemma ReadBraced(s: System, cfg: Config)
    ensures DoRead(s, cfg).spool == s.spool && DoRead(s, cfg).job == s.job
  {
    hide Choose, Take, ParseAll, Touch;
  }

  lemma EmptyBraced()
    ensures BraceTail([])
  {}

  lemma EnqueueBraced(s: System, line: Bytes, t1: nat, t2: nat, cfg: Config)
    requires Braced(s.spool) && JobBraced(s, cfg)
    ensures var s' := DoEnqueue(s, line, t1, t2, cfg); Braced(s'.spool) && JobBraced(s', cfg)
  {
    hide IndexOf, Tail;
    EmptyBraced();
    var s' := DoEnqueue(s, line, t1, t2, cfg);
    assert forall segment :: segment in s'.spool ==> segment in s.spool || segment.content == [];
    forall i | 0 <= i < |s'.spool|
      ensures BraceTail(s'.spool[i].content)
    {
      assert s'.spool[i] in s'.spool;
    }
  }

  lemma WriteBraced(s: System, k: nat, cfg: Config)
    requires Inv(s, cfg) && Braced(s.spool) && JobBraced(s, cfg)
    ensures var s' := DoWrite(s, k, cfg); Braced(s'.spool) && JobBraced(s', cfg)
  {
    hide IndexOf, Tail, Gained, BraceTail, LastOk, OffsetsOk;
    if s.job.Some? && 0 < k <= |s.job.value.left| {
      var job := s.job.value;
      JobAtEnd(s);
      var last := |s.spool| - 1;
      var content := s.spool[last].content;
      var done := |job.line| + 1 - |job.left|;
      assert job.left[..k] == (job.line + [NEWLINE])[done..done + k];
      JobTail(job, content);
      PieceBraced(content, job.at, job.line, done, k);
    }
  }

  lemma JobTail(job: Job, content: Bytes)
    requires job.at <= |content| && job.tail == Tail(content[..job.at])
    requires job.tail == [] || job.tail[0] == OPEN_BRACE
    ensures BraceTail(content[..job.at])
  {
    hide Tail;
  }

  lemma {:induction false} BracedAlways(s: System, actions: seq<Action>, cfg: Config)
    requires Inv(s, cfg) && Braced(s.spool) && JobBraced(s, cfg)
    ensures var e := Exec(s, actions, cfg); Inv(e, cfg) && Braced(e.spool) && JobBraced(e, cfg)
    decreases |actions|
  {
    hide Inv, Braced, JobBraced, Next;
    if actions != [] {
      InvNext(s, actions[0], cfg);
      StepBraced(s, actions[0], cfg);
      BracedAlways(Next(s, actions[0], cfg), actions[1..], cfg);
    }
  }

  /**
    In every reachable state, the write that completes an enqueue adds exactly its event to those on disk, if and
    only if the enqueue found no torn line.
  */
  lemma {:induction false} GainsExactly(actions: seq<Action>, cfg: Config)
    requires Exec(Init(), actions, cfg).job.Some?
    ensures var s := Exec(Init(), actions, cfg);
            var job := s.job.value;
            DoWrite(s, |job.left|, cfg).stream == s.stream + [job.line] <==> job.tail == []
  {
    hide Exec, Inv, Gained, IndexOf, Tail;
    InvInit(cfg);
    BracedAlways(Init(), actions, cfg);
    var s := Exec(Init(), actions, cfg);
    var job := s.job.value;
    JobLine(s, cfg);
    JobHasFile(s, cfg);
    GainedExactly(job.tail, job.line, cfg.parses);
    var gained := Gained(job.tail, job.line, cfg.parses);
    assert s.stream + gained == s.stream + [job.line] <==> gained == [job.line] by {
      assert (s.stream + gained)[|s.stream|..] == gained && (s.stream + [job.line])[|s.stream|..] == [job.line];
    }
  }

  lemma JobHasFile(s: System, cfg: Config)
    requires Inv(s, cfg) && s.job.Some?
    ensures s.writer.current.Some? && Has(s.spool, s.writer.current.value) && |s.job.value.left| > 0
  {
    hide IndexOf, Tail, OffsetsOk, LastOk;
    InvParts(s, cfg);
    JobAtEnd(s);
  }
}
