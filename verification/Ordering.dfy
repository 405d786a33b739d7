/**
  Ordered delivery within one run of the process: what has been acknowledged, followed by what is
  still unread, is exactly what was on disk at the start followed by what was enqueued since.
*/
module Ordering {
  import opened Wrappers
  import opened Lines
  import opened Queue
  import opened Pipeline
  import opened Invariants
  import opened Delivery

  // ---------------------------------------------------------------- unfinished lines

  lemma {:induction false} TailSplit(s: Bytes)
    ensures |Tail(s)| <= |s| && s[|s| - |Tail(s)|..] == Tail(s)
    ensures Complete(s[..|s| - |Tail(s)|]) && NEWLINE !in Tail(s)
    decreases |s|
  {
    hide LineEnd;
    var n := LineEnd(s);
    LineEndMeaning(s);
    if n > 0 {
      TailSplit(s[n..]);
      assert s[n..][..|s| - n - |Tail(s)|] == s[n..|s| - |Tail(s)|];
      assert s[n..][|s| - n - |Tail(s)|..] == s[|s| - |Tail(s)|..];
    }
  }

  /** The unfinished line does not depend on the complete lines before it. */
  lemma {:induction false} TailOfConcat(a: Bytes, b: Bytes)
    requires Complete(a)
    ensures Tail(a + b) == Tail(b)
    decreases |a|
  {
    hide LineEnd;
    if a == [] {
      assert a + b == b;
    } else {
      CompleteHasLine(a);
      LineEndOfConcat(a, b);
      var n := LineEnd(a);
      assert (a + b)[n..] == a[n..] + b;
      TailOfConcat(a[n..], b);
    }
  }

  lemma {:induction false} TailUnfinished(p: Bytes)
    requires NEWLINE !in p
    ensures Tail(p) == p && Texts(p) == []
  {
    LineEndMeaning(p);
    NoLine(p, 0, 0);
  }

  /** Bytes without a newline change no event; they only lengthen the unfinished line. */
  lemma {:induction false} EventsUnfinished(x: Bytes, p: Bytes, parses: Bytes -> bool)
    requires NEWLINE !in p
    ensures Events(x + p, parses) == Events(x, parses) && Tail(x + p) == Tail(x) + p
  {
    hide Texts, Tail, LineEnd;
    TailSplit(x);
    var d, t := x[..|x| - |Tail(x)|], Tail(x);
    assert x == d + t && x + p == d + (t + p);
    TextsOfConcat(d, t);
    TextsOfConcat(d, t + p);
    TailOfConcat(d, t + p);
    TailUnfinished(t);
    TailUnfinished(t + p);
  }

  /** A newline turns the unfinished line and what was added to it into one event, or none. */
  lemma {:induction false} EventsFinished(x: Bytes, line: Bytes, parses: Bytes -> bool)
    requires NEWLINE !in line
    ensures Events(x + line + [NEWLINE], parses) == Events(x, parses) + Gained(Tail(x), line, parses)
    ensures Complete(x + line + [NEWLINE])
  {
    hide Texts, Tail, LineEnd, LineText, Parseable;
    TailSplit(x);
    var d, t := x[..|x| - |Tail(x)|], Tail(x);
    var last := t + line;
    assert x == d + t && x + line + [NEWLINE] == d + (last + [NEWLINE]);
    TextsOfConcat(d, t);
    TextsOfConcat(d, last + [NEWLINE]);
    TailUnfinished(t);
    LineEndOfLine(last, []);
    assert last + [NEWLINE] + [] == last + [NEWLINE];
    FirstLine(last + [NEWLINE], 0, 0);
    NoTexts();
    assert Texts(last + [NEWLINE]) == LineText(last);
    ParseableOfConcat(Texts(d), LineText(last), parses);
    assert Texts(x) == Texts(d);
  }

  /**
    An enqueue that starts on a fresh line adds exactly its event; one that starts behind the torn
    beginning of another line does not (the torn beginning being that of a JSON object).
  */
  lemma GainedExactly(tail: Bytes, line: Bytes, parses: Bytes -> bool)
    requires WriterLine(line) && parses(line) && (tail == [] || tail[0] == OPEN_BRACE)
    ensures Gained(tail, line, parses) == [line] <==> tail == []
  {
    hide LineText, Parseable;
    var all := tail + line;
    assert all[0] == OPEN_BRACE && all[|all| - 1] == line[|line| - 1];
    BraceText(all);
    ParseableOne(all, parses);
    assert |all| == |tail| + |line|;
    assert tail == [] ==> all == line;
  }

  lemma BraceText(line: Bytes)
    requires line != [] && line[0] == OPEN_BRACE && line[|line| - 1] != CARRIAGE_RETURN
    ensures LineText(line) == [line]
  {
    assert line[0..] == line;
  }

  // ---------------------------------------------------------------- unread events

  function Rest(segment: Segment, offsets: Offsets, parses: Bytes -> bool): seq<Bytes> {
    var offset := OffsetOf(offsets, segment.name);
    if offset <= |segment.content| then Events(segment.content[offset..], parses) else []
  }

  /** All unread events, oldest first. */
  function UnreadEvents(spool: Spool, offsets: Offsets, parses: Bytes -> bool): seq<Bytes> {
    if spool == [] then [] else Rest(spool[0], offsets, parses) + UnreadEvents(spool[1..], offsets, parses)
  }

  lemma {:induction false} UnreadOfConcat(a: Spool, b: Spool, offsets: Offsets, parses: Bytes -> bool)
    ensures UnreadEvents(a + b, offsets, parses) == UnreadEvents(a, offsets, parses) + UnreadEvents(b, offsets, parses)
  {
    hide Rest;
    if a == [] {
      assert a + b == b;
    } else {
      assert (a + b)[1..] == a[1..] + b;
      UnreadOfConcat(a[1..], b, offsets, parses);
    }
  }

  lemma {:induction false} UnreadSame(spool: Spool, offsets: Offsets, offsets': Offsets, parses: Bytes -> bool)
    requires forall i :: 0 <= i < |spool| ==> OffsetOf(offsets', spool[i].name) == OffsetOf(offsets, spool[i].name)
    ensures UnreadEvents(spool, offsets', parses) == UnreadEvents(spool, offsets, parses)
  {
    hide Events;
    if spool != [] {
      UnreadSame(spool[1..], offsets, offsets', parses);
    }
  }

  lemma NothingLeft(segment: Segment, offsets: Offsets, parses: Bytes -> bool)
    requires !Unread(segment, offsets)
    ensures Rest(segment, offsets, parses) == []
  {
    NoTexts();
  }

  lemma {:induction false} UnreadNone(spool: Spool, offsets: Offsets, parses: Bytes -> bool)
    requires forall i :: 0 <= i < |spool| ==> !Unread(spool[i], offsets)
    ensures UnreadEvents(spool, offsets, parses) == []
  {
    hide Rest;
    if spool != [] {
      NothingLeft(spool[0], offsets, parses);
      UnreadNone(spool[1..], offsets, parses);
    }
  }

  lemma {:induction false} UnreadCut(spool: Spool, i: nat, offsets: Offsets, parses: Bytes -> bool)
    requires i < |spool|
    ensures UnreadEvents(spool, offsets, parses) ==
            UnreadEvents(spool[..i], offsets, parses) + Rest(spool[i], offsets, parses)
            + UnreadEvents(spool[i + 1..], offsets, parses)
  {
    hide Rest;
    assert spool == spool[..i] + spool[i..];
    UnreadOfConcat(spool[..i], spool[i..], offsets, parses);
  }

  // ---------------------------------------------------------------- steps

  predicate StreamOk(s: System, cfg: Config) {
    !s.moved ==> s.stream == s.committed + UnreadEvents(s.spool, s.reader.offsets, cfg.parses)
  }

  lemma {:induction false} CreatesEmpty(spool: Spool, segment: Segment, offsets: Offsets, parses: Bytes -> bool)
    requires segment.content == []
    ensures UnreadEvents(spool + [segment], offsets, parses) == UnreadEvents(spool, offsets, parses)
  {
    UnreadOfConcat(spool, [segment], offsets, parses);
    UnreadNone([segment], offsets, parses);
  }

  lemma EnqueueStream(s: System, line: Bytes, t1: nat, t2: nat, cfg: Config)
    requires StreamOk(s, cfg)
    ensures StreamOk(DoEnqueue(s, line, t1, t2, cfg), cfg)
  {
    hide UnreadEvents, IndexOf, Tail;
    var offsets := s.reader.offsets;
    CreatesEmpty(s.spool, Segment(t1, s.nextId, []), offsets, cfg.parses);
    var p1 := EnsureSegment(s.writer, s.spool, s.nextId, t1);
    CreatesEmpty(p1.spool, Segment(t2, p1.nextId, []), offsets, cfg.parses);
    var p := Prepare(s.writer, s.spool, s.nextId, |line| + 1, cfg.segmentMaxBytes, t1, t2);
    if p.ok {
      CreatesEmpty(p.spool, Segment(p.writer.current.value, p.nextId, []), offsets, cfg.parses);
    }
  }

  lemma {:induction false} OffsetBeforeJob(s: System)
    requires WriterOk(s.writer, s.job, s.spool, s.clock) && OffsetsOk(s.spool, s.reader.offsets) && s.job.Some?
    ensures OffsetOf(s.reader.offsets, s.spool[|s.spool| - 1].name) <= s.job.value.at
    ensures NEWLINE !in s.spool[|s.spool| - 1].content[s.job.value.at..]
  {
    hide IndexOf, Tail;
    var job := s.job.value;
    var content := s.spool[|s.spool| - 1].content;
    forall p | job.at <= p < |content|
      ensures content[p] != NEWLINE
    {
      assert content[p] == content[job.at..][p - job.at] == job.line[p - job.at];
    }
    assert Boundary(content, OffsetOf(s.reader.offsets, s.spool[|s.spool| - 1].name));
  }

  /** What a write adds to the unread events of the segment: nothing until the line is finished. */
  lemma WriteRest(content: Bytes, offset: nat, job: Job, k: nat, parses: Bytes -> bool)
    requires offset <= job.at <= |content| && Boundary(content, offset) && NEWLINE !in content[job.at..]
    requires NEWLINE !in job.line && 0 < k <= |job.left| <= |job.line| + 1
    requires job.left == (job.line + [NEWLINE])[|job.line| + 1 - |job.left|..]
    requires content[job.at..] == (job.line + [NEWLINE])[..|job.line| + 1 - |job.left|]
    requires job.tail == Tail(content[..job.at])
    ensures Events((content + job.left[..k])[offset..], parses) ==
            Events(content[offset..], parses) + (if k < |job.left| then [] else Gained(job.tail, job.line, parses))
  {
    hide Events, Tail, Gained;
    var x := content[offset..job.at];
    var d := content[job.at..];
    var all := job.line + [NEWLINE];
    assert content[offset..] == x + d;
    EventsUnfinished(x, d, parses);
    var d' := d + job.left[..k];
    assert (content + job.left[..k])[offset..] == x + d';
    assert d' == all[..|all| - |job.left| + k];
    if k < |job.left| {
      assert NEWLINE !in d';
      EventsUnfinished(x, d', parses);
    } else {
      assert d' == all && x + d' == x + job.line + [NEWLINE];
      EventsFinished(x, job.line, parses);
      assert content[..job.at] == content[..offset] + x;
      TailOfConcat(content[..offset], x);
    }
  }

  lemma WriteStream(s: System, k: nat, cfg: Config)
    requires Inv(s, cfg) && StreamOk(s, cfg)
    ensures StreamOk(DoWrite(s, k, cfg), cfg)
  {
    hide UnreadEvents, IndexOf, Tail, Events, Gained, LastOk;
    if s.job.Some? && 0 < k <= |s.job.value.left| {
      var job := s.job.value;
      var last := |s.spool| - 1;
      var offsets := s.reader.offsets;
      var s' := DoWrite(s, k, cfg);
      JobAtEnd(s);
      OffsetBeforeJob(s);
      var offset := OffsetOf(offsets, s.spool[last].name);
      assert Boundary(s.spool[last].content, offset);
      WriteRest(s.spool[last].content, offset, job, k, cfg.parses);
      UnreadCut(s.spool, last, offsets, cfg.parses);
      UnreadCut(s'.spool, last, offsets, cfg.parses);
      assert s'.spool[..last] == s.spool[..last] && s'.spool[last + 1..] == s.spool[last + 1..] == [];
      UnreadNone([], offsets, cfg.parses);
    }
  }

  lemma AcknowledgeStream(s: System, cfg: Config)
    requires Inv(s, cfg) && StreamOk(s, cfg)
    ensures StreamOk(DoAcknowledge(s), cfg)
  {
    hide UnreadEvents, IndexOf, Events, DiskOk, WriterOk, Rest;
    if s.due.Some? && Commits(s.reader, |s.due.value.events|) {
      InvParts(s, cfg);
      CommitUnread(s.spool, s.reader.offsets, s.due.value, cfg.parses);
    }
  }

  /** Committing a batch takes exactly its events from the front of the unread ones. */
  lemma CommitUnread(spool: Spool, offsets: Offsets, b: Batch, parses: Bytes -> bool)
    requires Sorted(spool) && OffsetsOk(spool, offsets) && BatchOk(spool, offsets, b, parses)
    ensures UnreadEvents(spool, offsets, parses) ==
            b.events + UnreadEvents(spool, offsets[b.name := b.end], parses)
  {
    hide UnreadEvents, IndexOf, Events;
    var i := IndexOf(spool, b.name);
    var offsets' := offsets[b.name := b.end];
    var content := spool[i].content;
    forall j | 0 <= j < |spool| && j != i
      ensures spool[j].name != b.name
    {
      IndexOfSorted(spool, j);
    }
    UnreadCut(spool, i, offsets, parses);
    UnreadCut(spool, i, offsets', parses);
    UnreadSame(spool[..i], offsets, offsets', parses);
    UnreadSame(spool[i + 1..], offsets, offsets', parses);
    UnreadNone(spool[..i], offsets, parses);
    assert content[b.start..] == content[b.start..b.end] + content[b.end..];
    assert Boundary(content, b.start) by { assert Boundary(spool[i].content, OffsetOf(offsets, spool[i].name)); }
    assert Complete(content[b.start..b.end]);
    EventsOfConcat(content[b.start..b.end], content[b.end..], parses);
  }

  lemma {:induction false} KeepUnread(spool: Spool, offsets: Offsets, gone: set<nat>, parses: Bytes -> bool)
    requires forall i :: 0 <= i < |spool| && spool[i].name in gone ==> !Unread(spool[i], offsets)
    ensures UnreadEvents(Keep(spool, gone), offsets - gone, parses) == UnreadEvents(spool, offsets, parses)
  {
    hide Events;
    if spool != [] {
      KeepUnread(spool[1..], offsets, gone, parses);
      var rest := Keep(spool[1..], gone);
      if spool[0].name in gone {
        NothingLeft(spool[0], offsets, parses);
        assert Keep(spool, gone) == rest;
      } else {
        assert Keep(spool, gone)[1..] == rest;
      }
    }
  }

  lemma SweepStream(s: System, gone: set<nat>, cfg: Config)
    requires Sorted(s.spool) && StreamOk(s, cfg)
    ensures StreamOk(DoSweep(s, gone), cfg)
  {
    hide UnreadEvents, IndexOf, Keep;
    if Sweepable(s.spool, s.reader.offsets, gone) {
      forall i | 0 <= i < |s.spool| && s.spool[i].name in gone
        ensures !Unread(s.spool[i], s.reader.offsets)
      {
        IndexOfSorted(s.spool, i);
      }
      KeepUnread(s.spool, s.reader.offsets, gone, cfg.parses);
    }
  }

  lemma {:induction false} AllUnread(spool: Spool, parses: Bytes -> bool)
    ensures UnreadEvents(spool, map[], parses) == AllEvents(spool, parses)
  {
    hide Events;
    if spool != [] {
      AllUnread(spool[1..], parses);
      assert spool[0].content[0..] == spool[0].content;
    }
  }

  lemma StreamNext(s: System, a: Action, cfg: Config)
    requires Inv(s, cfg) && StreamOk(s, cfg)
    ensures StreamOk(Next(s, a, cfg), cfg)
  {
    hide UnreadEvents, AllEvents, IndexOf, Inv, DoEnqueue, DoWrite, DoAcknowledge, DoSweep, Take, ParseAll, Choose,
        Touch,
      ReadFails, Without;
    InvParts(s, cfg);
    var s' := Next(s, a, cfg);
    match a
    case Enqueue(line, t1, t2) => EnqueueStream(s, line, t1, t2, cfg);
    case Write(k) => WriteStream(s, k, cfg);
    case Acknowledge => AcknowledgeStream(s, cfg);
    case Sweep(gone) => SweepStream(s, gone, cfg);
    case Crash => AllUnread(s.spool, cfg.parses);
    case Read => UnreadSame(s.spool, s.reader.offsets, s'.reader.offsets, cfg.parses);
    case ReadFailed =>
      ReadFailedOffsets(s);
      UnreadSame(s.spool, s.reader.offsets, s'.reader.offsets, cfg.parses);
    case _ =>
  }

  lemma {:induction false} StreamExec(s: System, actions: seq<Action>, cfg: Config)
    requires Inv(s, cfg) && StreamOk(s, cfg)
    ensures StreamOk(Exec(s, actions, cfg), cfg)
    decreases |actions|
  {
    hide Inv, Next, StreamOk;
    if actions != [] {
      InvNext(s, actions[0], cfg);
      StreamNext(s, actions[0], cfg);
      StreamExec(Next(s, actions[0], cfg), actions[1..], cfg);
    }
  }

  // ---------------------------------------------------------------- what the stream is

  function LinesOf(receipts: seq<Receipt>): seq<Bytes> {
    if receipts == [] then [] else [receipts[0].line] + LinesOf(receipts[1..])
  }

  lemma {:induction false} LinesOfConcat(a: seq<Receipt>, b: seq<Receipt>)
    ensures LinesOf(a + b) == LinesOf(a) + LinesOf(b)
  {
    if a == [] {
      assert a + b == b;
    } else {
      assert (a + b)[1..] == a[1..] + b;
      LinesOfConcat(a[1..], b);
    }
  }

  /** Enqueues start on a fresh line. */
  predicate Neat(s: System) {
    && (s.job.Some? ==> s.job.value.tail == [])
    && (s.job.None? && s.writer.current.Some? && Has(s.spool, s.writer.current.value) ==>
          Complete(s.spool[IndexOf(s.spool, s.writer.current.value)].content))
  }

  lemma NeatEnqueue(s: System, line: Bytes, t1: nat, t2: nat, cfg: Config)
    requires Neat(s) && DiskOk(s.spool, s.bad, s.clock, s.nextId) && WriterOk(s.writer, s.job, s.spool, s.clock)
    ensures Neat(DoEnqueue(s, line, t1, t2, cfg))
  {
    hide IndexOf, Tail, DiskOk, Evolves, JobOk;
    if s.job.None? && WriterLine(line) && cfg.parses(line) && s.clock <= t1 <= t2 {
      var p1 := EnsureSegment(s.writer, s.spool, s.nextId, t1);
      var p := Prepare(s.writer, s.spool, s.nextId, |line| + 1, cfg.segmentMaxBytes, t1, t2);
      DiskLater(s.spool, s.bad, s.clock, s.nextId, t1);
      EnsureSegmentOk(s.spool, s.bad, s.clock, s.nextId, s.writer, t1);
      Created(s.spool, Segment(t1, s.nextId, []));
      Created(p1.spool, Segment(t2, p1.nextId, []));
      if p.ok {
        Created(p.spool, Segment(p.writer.current.value, p.nextId, []));
        var q := Open(p);
        TailClean(q.spool[IndexOf(q.spool, q.writer.current.value)].content);
      }
    }
  }

  lemma {:induction false} Created(spool: Spool, segment: Segment)
    ensures !Has(spool, segment.name) ==> IndexOf(spool + [segment], segment.name) == |spool|
  {
    if spool != [] {
      assert (spool + [segment])[1..] == spool[1..] + [segment];
      Created(spool[1..], segment);
    }
  }

  lemma NeatWrite(s: System, k: nat, cfg: Config)
    requires Neat(s) && DiskOk(s.spool, s.bad, s.clock, s.nextId) && WriterOk(s.writer, s.job, s.spool, s.clock)
    ensures Neat(DoWrite(s, k, cfg))
  {
    hide IndexOf, Tail, DiskOk, Gained;
    if s.job.Some? && k == |s.job.value.left| {
      JobAtEnd(s);
      var job := s.job.value;
      assert job.left[|job.left| - 1] == (job.line + [NEWLINE])[|job.line|];
      var last := |s.spool| - 1;
      var grown := s.spool[last := s.spool[last].(content := s.spool[last].content + job.left[..k])];
      IndexOfNames(s.spool, grown, s.writer.current.value);
    }
  }

  lemma NeatMoveAway(s: System, ok: bool)
    requires Neat(s) && Sorted(s.spool)
    ensures Neat(DoMoveAway(s, ok))
  {
    hide IndexOf, Without;
    if s.poisoned.Some? && s.writer.current.Some? && Has(s.spool, s.poisoned.value) {
      var i := IndexOf(s.spool, s.poisoned.value);
      var n := s.writer.current.value;
      WithoutSorted(s.spool, i);
      HasWithout(s.spool, i, n);
      if Has(s.spool, n) && n != s.spool[i].name {
        var k := IndexOf(s.spool, n);
        IndexOfSorted(Without(s.spool, i), if k < i then k else k - 1);
      }
    }
  }

  lemma NeatSweep(s: System, gone: set<nat>)
    requires Neat(s) && Sorted(s.spool)
    ensures Neat(DoSweep(s, gone))
  {
    hide IndexOf, Keep;
    if Sweepable(s.spool, s.reader.offsets, gone) && s.writer.current.Some? {
      var n := s.writer.current.value;
      var kept := Keep(s.spool, gone);
      HasKept(s.spool, gone, n);
      KeepSorted(s.spool, gone);
      if Has(kept, n) {
        var segment := kept[IndexOf(kept, n)];
        assert segment in kept;
        var i :| 0 <= i < |s.spool| && s.spool[i] == segment;
        IndexOfSorted(s.spool, i);
      }
    }
  }

  /** No crash, and no enqueue that fails after some of its bytes were written. */
  predicate Smooth(s: System, a: Action) {
    && !a.Crash?
    && (a.Abort? && s.job.Some? ==> |s.job.value.left| == |s.job.value.line| + 1)
  }

  lemma NeatAbort(s: System, cfg: Config)
    requires Inv(s, cfg) && Neat(s) && Smooth(s, Abort)
    ensures Neat(s.(job := None))
  {
    hide IndexOf, Tail, LastOk, OffsetsOk;
    if s.job.Some? {
      var job, content := s.job.value, s.spool[|s.spool| - 1].content;
      InvParts(s, cfg);
      JobAtEnd(s);
      assert content[job.at..] == [] && content[..job.at] == content;
      TailClean(content);
    }
  }

  lemma NeatNext(s: System, a: Action, cfg: Config)
    requires Inv(s, cfg) && Neat(s) && (Smooth(s, a) || a.Crash?)
    ensures Neat(Next(s, a, cfg))
  {
    hide IndexOf, Inv, DoEnqueue, DoWrite, DoSweep, DoMoveAway, Take, ParseAll, Choose, Touch, ReadFails, AllEvents;
    InvParts(s, cfg);
    match a
    case Enqueue(line, t1, t2) => NeatEnqueue(s, line, t1, t2, cfg);
    case Write(k) => NeatWrite(s, k, cfg);
    case Abort => NeatAbort(s, cfg);
    case MoveAway(ok) => NeatMoveAway(s, ok);
    case Sweep(gone) => NeatSweep(s, gone);
    case _ =>
  }

  /**
    Between two states, enqueues returned that had started on a fresh line,
    and the stream is longer by their events.
  */
  predicate Grew(s: System, e: System) {
    && |s.receipts| <= |e.receipts| && e.receipts[..|s.receipts|] == s.receipts
    && e.stream == s.stream + LinesOf(e.receipts[|s.receipts|..])
    && forall r :: r in e.receipts[|s.receipts|..] ==> r.clean
  }

  lemma GrewTransitive(a: System, b: System, c: System)
    requires Grew(a, b) && Grew(b, c)
    ensures Grew(a, c)
  {
    hide LinesOf;
    var x, y := b.receipts[|a.receipts|..], c.receipts[|b.receipts|..];
    assert c.receipts == b.receipts + y;
    assert c.receipts[|a.receipts|..] == x + y;
    LinesOfConcat(x, y);
  }

  lemma GrewStep(s: System, a: Action, cfg: Config)
    requires Inv(s, cfg) && Neat(s) && Smooth(s, a) && (s.job.Some? ==> cfg.parses(s.job.value.line))
    ensures Grew(s, Next(s, a, cfg))
  {
    hide IndexOf, Tail, Take, ParseAll, Choose, Touch, ReadFails, AllEvents, Prepare, Open, Without, Keep, Gained, Inv;
    var s' := Next(s, a, cfg);
    if a.Write? && s'.receipts != s.receipts {
      var job := s.job.value;
      JobLine(s, cfg);
      GainedExactly(job.tail, job.line, cfg.parses);
      var r := Receipt(job.id, job.at, job.line, true);
      assert s'.receipts[|s.receipts|..] == [r];
      assert LinesOf([r]) == [job.line];
    } else {
      assert s'.receipts[|s.receipts|..] == [];
    }
  }

  predicate Running(s: System, actions: seq<Action>, cfg: Config)
    decreases |actions|
  {
    actions == [] || (Smooth(s, actions[0]) && Running(Next(s, actions[0], cfg), actions[1..], cfg))
  }

  lemma {:induction false} StreamIsReceipts(s: System, actions: seq<Action>, cfg: Config)
    requires Inv(s, cfg) && Neat(s) && Running(s, actions, cfg) && (s.job.Some? ==> cfg.parses(s.job.value.line))
    ensures Grew(s, Exec(s, actions, cfg))
    decreases |actions|
  {
    hide Inv, Next, Neat;
    if actions == [] {
      assert s.receipts[|s.receipts|..] == [];
    } else {
      hide Grew;
      var a := actions[0];
      var s' := Next(s, a, cfg);
      InvNext(s, a, cfg);
      NeatNext(s, a, cfg);
      JobParses(s, a, cfg);
      GrewStep(s, a, cfg);
      StreamIsReceipts(s', actions[1..], cfg);
      GrewTransitive(s, s', Exec(s, actions, cfg));
    }
  }

  /**
    In order, without gap, repeat or swap: after any history and a restart, and then any run in which no
    enqueue fails half-way and nothing is quarantined, the acknowledged events are a prefix of those on disk
    at the start followed by those enqueued since; the rest of them is what is still unread.
  */
  lemma {:induction false} InOrder(before: seq<Action>, after: seq<Action>, cfg: Config)
    requires Running(Next(Exec(Init(), before, cfg), Crash, cfg), after, cfg)
    requires !Exec(Next(Exec(Init(), before, cfg), Crash, cfg), after, cfg).moved
    ensures var start := Next(Exec(Init(), before, cfg), Crash, cfg);
            var s := Exec(start, after, cfg);
            && |start.receipts| <= |s.receipts|
            && s.committed + UnreadEvents(s.spool, s.reader.offsets, cfg.parses)
               == AllEvents(start.spool, cfg.parses) + LinesOf(s.receipts[|start.receipts|..])
  {
    hide Inv, Neat, UnreadEvents, AllEvents;
    var s0 := Exec(Init(), before, cfg);
    InvInit(cfg);
    InvExec(Init(), before, cfg);
    InvNext(s0, Crash, cfg);
    var start := Next(s0, Crash, cfg);
    assert Neat(start) by { NeatStart(s0, cfg); }
    AllUnread(start.spool, cfg.parses);
    assert StreamOk(start, cfg);
    StreamExec(start, after, cfg);
    StreamIsReceipts(start, after, cfg);
  }

  lemma NeatStart(s: System, cfg: Config)
    ensures Neat(DoCrash(s, cfg))
  {}
}
