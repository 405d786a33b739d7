/**
  The whole queue as a transition system: a writer that puts bytes on disk a few at a time, a
  reader, a shipper, a server, crashes and restarts, interleaved in any order. The reader's and
  the writer's steps are those that the classes FileQueueReader and FileQueueWriter take.
*/
module Pipeline {
  import opened Wrappers
  import opened Lines
  import opened Queue

  datatype Config = Config(maxEvents: int, maxBytes: int, segmentMaxBytes: int, parses: Bytes -> bool)

  /** The enqueue in progress: `left` is what it has still to write, `tail` the unfinished line it found. */
  datatype Job = Job(line: Bytes, left: Bytes, id: nat, at: nat, tail: Bytes)

  /** An enqueue that returned: its line was written to file `id` from byte `at` on. */
  datatype Receipt = Receipt(id: nat, at: nat, line: Bytes, clean: bool)

  /** Events read from `bytes`, which were those from start to end of file `id`. */
  datatype Batch = Batch(name: nat, id: nat, start: nat, end: nat, bytes: Bytes, events: seq<Bytes>)

  datatype System = System(
    clock: nat, spool: Spool, bad: seq<Segment>, nextId: nat,
    writer: Writer, job: Option<Job>,
    reader: Reader, poisoned: Option<nat>,
    held: Option<Batch>,        // read, and being shipped
    due: Option<Batch>,         // taken by the server, and to be acknowledged
    receipts: seq<Receipt>,     // every enqueue that returned
    accepted: seq<Batch>,       // every batch answered 2xx without a transient item error
    committed: seq<Bytes>,      // events of the batches acknowledged since the last start
    stream: seq<Bytes>,         // events on disk at the last start, then those completed since
    moved: bool                 // a segment has been quarantined since the last start
  )

  datatype Action =
    | Enqueue(line: Bytes, t1: nat, t2: nat)  // an enqueue begins, reading the clock at t1 and t2
    | Write(k: nat)                           // its next k bytes reach the disk; it returns after the last
    | Abort                                   // it ends in an exception instead
    | Read
    | ReadFailed
    | MoveAway(ok: bool)
    | Reply(ok: bool)                         // the server's answer to the batch being shipped
    | Acknowledge
    | Sweep(gone: set<nat>)                   // deleting old segments
    | Crash                                   // the process dies and starts again

  // ---------------------------------------------------------------- events of files

  function Events(s: Bytes, parses: Bytes -> bool): seq<Bytes> {
    Parseable(Texts(s), parses)
  }

  function AllEvents(spool: Spool, parses: Bytes -> bool): seq<Bytes> {
    if spool == [] then [] else Events(spool[0].content, parses) + AllEvents(spool[1..], parses)
  }

  /** The unfinished line at the end of a file. */
  function Tail(s: Bytes): (tail: Bytes)
    decreases |s|
  {
    var n := LineEnd(s);
    if n == 0 then s else Tail(s[n..])
  }

  /** What finishing `line` behind an unfinished `tail` adds to the events of a file. */
  function Gained(tail: Bytes, line: Bytes, parses: Bytes -> bool): seq<Bytes> {
    Parseable(LineText(tail + line), parses)
  }

  // ---------------------------------------------------------------- steps

  function Init(): System {
    System(0, [], [], 0, IDLE_WRITER, None, FRESH_READER, None, None, None, [], [], [], [], false)
  }

  function DoEnqueue(s: System, line: Bytes, t1: nat, t2: nat, cfg: Config): System {
    if s.job.Some? || !WriterLine(line) || !cfg.parses(line) || !(s.clock <= t1 <= t2) then s
    else
      var p := Open(Prepare(s.writer, s.spool, s.nextId, |line| + 1, cfg.segmentMaxBytes, t1, t2));
      var s' := s.(clock := t2, writer := p.writer, spool := p.spool, nextId := p.nextId);
      if !p.ok then s'
      else
        var segment := p.spool[IndexOf(p.spool, p.writer.current.value)];
        s'.(job := Some(Job(line, line + [NEWLINE], segment.id, |segment.content|, Tail(segment.content))))
  }

  function DoWrite(s: System, k: nat, cfg: Config): System {
    if s.job.None? || !(0 < k <= |s.job.value.left|) || s.writer.current.None?
        || !Has(s.spool, s.writer.current.value) then s
    else
      var job := s.job.value;
      var s' := s.(spool := AppendTo(s.spool, s.writer.current.value, job.left[..k]));
      if k < |job.left| then s'.(job := Some(job.(left := job.left[k..])))
      else
        s'.(job := None,
            writer := s.writer.(size := s.writer.size + |job.line| + 1),
            receipts := s.receipts + [Receipt(job.id, job.at, job.line, job.tail == [])],
            stream := s.stream + Gained(job.tail, job.line, cfg.parses))
  }

  predicate ReaderFree(s: System) {
    s.poisoned.None? && s.held.None? && s.due.None?
  }

  function DoRead(s: System, cfg: Config): System {
    if !ReaderFree(s) then s
    else
      var step := Queue.Read(s.reader, s.spool, cfg.maxEvents, cfg.maxBytes, cfg.parses);
      var s' := s.(reader := step.reader, poisoned := step.poisoned);
      if step.events == [] then s'
      else
        var i := Choose(s.spool, s.reader.offsets);
        if i == |s.spool| then s'
        else
          var start := OffsetOf(s.reader.offsets, s.spool[i].name);
          var unread := UnreadBytes(s.spool, s.reader.offsets, i);
          var n := Take(unread, cfg.maxEvents, cfg.maxBytes).consumed;
          s'.(held := Some(Batch(s.spool[i].name, s.spool[i].id, start, start + n, unread[..n], step.events)))
  }

  /** A file that is open for writing cannot be moved. */
  function DoMoveAway(s: System, ok: bool): System {
    if s.poisoned.None? then s
    else
      var name := s.poisoned.value;
      var s' := s.(poisoned := None);
      var i := IndexOf(s.spool, name);
      if !ok || i == |s.spool| || (s.job.Some? && s.writer.current == Some(name)) then s'
      else
        s'.(spool := Without(s.spool, i), bad := s.bad + [s.spool[i]], reader := Forget(s.reader, name), moved := true)
  }

  function DoReply(s: System, ok: bool): System {
    if s.held.None? || s.poisoned.Some? then s
    else if !ok then s.(held := None)
    else s.(held := None, due := s.held, accepted := s.accepted + [s.held.value])
  }

  function DoAcknowledge(s: System): System {
    if s.due.None? then s
    else
      var count := |s.due.value.events|;
      s.(due := None,
         reader := Commit(s.reader, count),
         committed := if Commits(s.reader, count) then s.committed + s.due.value.events else s.committed)
  }

  function DoSweep(s: System, gone: set<nat>): System {
    if !Sweepable(s.spool, s.reader.offsets, gone) then s
    else s.(spool := Keep(s.spool, gone), reader := Swept(s.reader, gone))
  }

  function DoCrash(s: System, cfg: Config): System {
    s.(writer := IDLE_WRITER, job := None, reader := FRESH_READER, poisoned := None, held := None, due := None,
       committed := [], stream := AllEvents(s.spool, cfg.parses), moved := false)
  }

  /** One step; an action that cannot happen in a state changes nothing. */
  function Next(s: System, a: Action, cfg: Config): System {
    match a
    case Enqueue(line, t1, t2) => DoEnqueue(s, line, t1, t2, cfg)
    case Write(k) => DoWrite(s, k, cfg)
    case Abort => s.(job := None)
    case Read => DoRead(s, cfg)
    case ReadFailed => if ReaderFree(s) then s.(reader := ReadFails(s.reader, s.spool)) else s
    case MoveAway(ok) => DoMoveAway(s, ok)
    case Reply(ok) => DoReply(s, ok)
    case Acknowledge => DoAcknowledge(s)
    case Sweep(gone) => DoSweep(s, gone)
    case Crash => DoCrash(s, cfg)
  }

  function Exec(s: System, actions: seq<Action>, cfg: Config): System
    decreases |actions|
  {
    if actions == [] then s else Exec(Next(s, actions[0], cfg), actions[1..], cfg)
  }

  lemma {:induction false} ExecFive(s: System, actions: seq<Action>, cfg: Config)
    requires |actions| == 5
    ensures Exec(s, actions, cfg) ==
            Next(Next(Next(Next(Next(s, actions[0], cfg), actions[1], cfg), actions[2], cfg), actions[3], cfg),
                actions[4], cfg)
  {
    hide Next, Exec;
    var s1 := Next(s, actions[0], cfg);
    var s2 := Next(s1, actions[1], cfg);
    var s3 := Next(s2, actions[2], cfg);
    var s4 := Next(s3, actions[3], cfg);
    assert actions[0..] == actions;
    ExecFrom(s, actions, 0, cfg);
    ExecFrom(s1, actions, 1, cfg);
    ExecFrom(s2, actions, 2, cfg);
    ExecFrom(s3, actions, 3, cfg);
    ExecFrom(s4, actions, 4, cfg);
    assert actions[5..] == [];
    ExecDone(Next(s4, actions[4], cfg), cfg);
  }

  lemma {:induction false} ExecFrom(s: System, actions: seq<Action>, i: nat, cfg: Config)
    requires i < |actions|
    ensures Exec(s, actions[i..], cfg) == Exec(Next(s, actions[i], cfg), actions[i + 1..], cfg)
  {
    hide Next;
    assert actions[i..][1..] == actions[i + 1..];
  }

  lemma {:induction false} ExecDone(s: System, cfg: Config)
    ensures Exec(s, [], cfg) == s
  {}

  lemma {:induction false} ExecTwo(s: System, a: Action, b: Action, cfg: Config)
    ensures Exec(s, [a, b], cfg) == Next(Next(s, a, cfg), b, cfg)
  {
    hide Next, Exec;
    var acts := [a, b];
    assert acts[0..] == acts && acts[2..] == [];
    ExecFrom(s, acts, 0, cfg);
    ExecFrom(Next(s, a, cfg), acts, 1, cfg);
    ExecDone(Next(Next(s, a, cfg), b, cfg), cfg);
  }

  lemma {:induction false} ExecSplit(s: System, a: seq<Action>, b: seq<Action>, cfg: Config)
    ensures Exec(s, a + b, cfg) == Exec(Exec(s, a, cfg), b, cfg)
    decreases |a|
  {
    hide Next;
    if a == [] {
      assert a + b == b;
    } else {
      assert (a + b)[1..] == a[1..] + b;
      ExecSplit(Next(s, a[0], cfg), a[1..], b, cfg);
    }
  }

  // ---------------------------------------------------------------- invariants

  /** Names increase and lie in the past; no two files, live or quarantined, share an id. */
  predicate DiskOk(spool: Spool, bad: seq<Segment>, clock: nat, nextId: nat) {
    && Sorted(spool)
    && (forall i :: 0 <= i < |spool| ==> spool[i].name <= clock && spool[i].id < nextId)
    && (forall i, j :: 0 <= i < j < |spool| ==> spool[i].id != spool[j].id)
    && (forall j :: 0 <= j < |bad| ==> bad[j].id < nextId)
    && (forall i, j :: 0 <= i < |spool| && 0 <= j < |bad| ==> spool[i].id != bad[j].id)
  }

  /** The segment written to is the newest. */
  predicate CurrentOk(writer: Writer, spool: Spool, clock: nat) {
    writer.current.Some? ==>
      && writer.current.value <= clock
      && forall i :: 0 <= i < |spool| ==> spool[i].name <= writer.current.value
  }

  /** An enqueue in progress has written a prefix of its line to the end of `segment`. */
  predicate JobOk(job: Job, segment: Segment, name: nat) {
    && segment.name == name && segment.id == job.id
    && WriterLine(job.line)
    && 0 < |job.left| <= |job.line| + 1
    && job.left == (job.line + [NEWLINE])[|job.line| + 1 - |job.left|..]
    && job.at <= |segment.content|
    && segment.content[job.at..] == (job.line + [NEWLINE])[..|job.line| + 1 - |job.left|]
    && job.tail == Tail(segment.content[..job.at])
  }

  predicate WriterOk(writer: Writer, job: Option<Job>, spool: Spool, clock: nat) {
    && CurrentOk(writer, spool, clock)
    && (job.Some? ==>
          writer.current.Some? && spool != [] && JobOk(job.value, spool[|spool| - 1], writer.current.value))
  }

  /** Committed offsets lie within the files, at line boundaries. */
  predicate OffsetsOk(spool: Spool, offsets: Offsets) {
    && (forall i :: 0 <= i < |spool| ==> Boundary(spool[i].content, OffsetOf(offsets, spool[i].name)))
    && (forall n :: n in offsets && !Has(spool, n) ==> offsets[n] == 0)
  }

  function Outstanding(s: System): Option<Batch> {
    if s.due.Some? then s.due else s.held
  }

  /** A batch that acknowledging would commit: the next unread events, of the oldest unread segment. */
  predicate BatchOk(spool: Spool, offsets: Offsets, b: Batch, parses: Bytes -> bool) {
    var i := IndexOf(spool, b.name);
    && i < |spool| && spool[i].id == b.id && Unread(spool[i], offsets)
    && OffsetOf(offsets, b.name) == b.start <= b.end
    && Boundary(spool[i].content, b.end)
    && spool[i].content[b.start..b.end] == b.bytes
    && Events(b.bytes, parses) == b.events
    && (forall j :: 0 <= j < i ==> !Unread(spool[j], offsets))
  }

  predicate LastOk(s: System, parses: Bytes -> bool) {
    && (s.held.Some? ==> s.due.None?)
    && (s.poisoned.Some? ==> s.reader.last.None?)
    && (s.due.Some? ==> s.due.value in s.accepted)
    && (Outstanding(s).Some? && s.reader.last.Some? ==>
          var b := Outstanding(s).value;
          && s.reader.last.value.name == b.name && s.reader.last.value.newOffset == b.end
          && s.reader.last.value.count == |b.events|
          && BatchOk(s.spool, s.reader.offsets, b, parses))
  }

  predicate Inv(s: System, cfg: Config) {
    && DiskOk(s.spool, s.bad, s.clock, s.nextId)
    && WriterOk(s.writer, s.job, s.spool, s.clock)
    && OffsetsOk(s.spool, s.reader.offsets)
    && LastOk(s, cfg.parses)
  }
}
