/**
  Why at-least-once asks for a fresh line: an enqueue that fails between its JSON and its newline costs
  the next event, although that event's own enqueue returns normally.
*/
module TornEnqueue {
  import opened Wrappers
  import opened Lines
  import opened Queue
  import opened Pipeline
  import opened Delivery
  import opened Ordering
  import opened Draining

  /** The file after a torn enqueue of `a`, a normal one of `b` and another normal one of `a`. */
  function TornFile(a: Bytes, b: Bytes): Bytes {
    a + (b + [NEWLINE]) + (a + [NEWLINE])
  }

  predicate Roomy(a: Bytes, b: Bytes, cfg: Config) {
    && cfg.maxEvents >= 2
    && |TornFile(a, b)| <= cfg.maxBytes
    && |TornFile(a, b)| <= cfg.segmentMaxBytes
  }

  lemma {:induction false} TornTexts(a: Bytes, b: Bytes, maxEvents: int, maxBytes: int)
    requires WriterLine(a) && WriterLine(b) && maxEvents >= 2 && |TornFile(a, b)| <= maxBytes
    ensures var r := Take(TornFile(a, b), maxEvents, maxBytes);
            r.texts == [a + b, a] && r.consumed == |TornFile(a, b)|
  {
    hide LineText, LineEnd, Texts, Take, Fits;
    var first := a + b;
    NoNewline(a, b);
    assert first[0] == a[0] && first[|first| - 1] == b[|b| - 1];
    BraceText(first);
    BraceText(a);
    var second := a + [NEWLINE];
    assert TornFile(a, b) == first + [NEWLINE] + second;
    LineEndOfLine(first, second);
    FirstLine(TornFile(a, b), maxEvents, maxBytes);
    LineEndOfLine(a, []);
    assert second == a + [NEWLINE] + [];
    var n := |first| + 1;
    FirstLine(second, maxEvents - 1, maxBytes - n);
    NoTexts();
    NoLine([], maxEvents - 2, maxBytes - n - |second|);
  }

  lemma NoNewline(a: Bytes, b: Bytes)
    requires WriterLine(a) && WriterLine(b)
    ensures NEWLINE !in a + b
  {}

  lemma TornParse(a: Bytes, b: Bytes, parses: Bytes -> bool)
    requires parses(a) && !parses(a + b)
    ensures ParseAll([a + b, a], 0, parses) == Parsed([a], 0, false)
  {
    assert [a + b, a][1..] == [a];
    assert [a][1..] == [];
    assert ParseAll([], 0, parses) == Parsed([], 0, false);
    assert ParseAll([a], 1, parses).events == [a] + [];
  }

  function Torn(a: Bytes, b: Bytes, cfg: Config): seq<Action> {
    [Enqueue(a, 0, 0), Write(|a|), Abort, Enqueue(b, 0, 0), Write(|b| + 1), Enqueue(a, 0, 0), Write(|a| + 1)]
  }

  /** The receipts of the two enqueues that returned. */
  function TornReceipts(a: Bytes, b: Bytes): seq<Receipt> {
    [Receipt(0, |a|, b, false), Receipt(0, |a| + |b| + 1, a, true)]
  }

  predicate WithFile(s: System, content: Bytes, receipts: seq<Receipt>, size: nat) {
    && s.clock == 0 && s.spool == [Segment(0, 0, content)] && s.bad == [] && s.nextId == 1
    && s.writer == Writer(Some(0), size) && s.job.None?
    && s.reader == FRESH_READER && s.poisoned.None? && s.held.None? && s.due.None?
    && s.receipts == receipts && s.accepted == []
  }

  function Enqueued(s: System, content: Bytes, line: Bytes): System {
    s.(job := Some(Job(line, line + [NEWLINE], 0, |content|, Tail(content))))
  }

  lemma EnqueueStarts(s: System, content: Bytes, size: nat, line: Bytes, cfg: Config)
    requires WithFile(s, content, s.receipts, size)
    requires WriterLine(line) && cfg.parses(line) && size + |line| < cfg.segmentMaxBytes
    ensures Next(s, Enqueue(line, 0, 0), cfg) == Enqueued(s, content, line)
  {
    hide WriterLine, Tail;
  }

  /** One enqueue into the only segment, of which the first k bytes reach the disk. */
  lemma {:induction false} OneEnqueue(s: System, content: Bytes, size: nat, line: Bytes, k: nat, cfg: Config)
    requires WithFile(s, content, s.receipts, size)
    requires WriterLine(line) && cfg.parses(line) && 0 < k <= |line| + 1 && size + |line| < cfg.segmentMaxBytes
    ensures var s1 := Next(s, Enqueue(line, 0, 0), cfg);
            var s2 := Next(s1, Write(k), cfg);
            && (k <= |line| ==> WithFile(Next(s2, Abort, cfg), content + line[..k], s.receipts, size))
            && (k == |line| + 1 ==> WithFile(s2, content + (line + [NEWLINE]),
                  s.receipts + [Receipt(0, |content|, line, Tail(content) == [])], size + |line| + 1))
  {
    hide WriterLine, Tail, Gained, DoEnqueue;
    EnqueueStarts(s, content, size, line, cfg);
    var s1 := Enqueued(s, content, line);
    var bytes := line + [NEWLINE];
    assert bytes[..k] == if k <= |line| then line[..k] else bytes;
    AppendOnly(content, bytes[..k]);
    assert DoWrite(s1, k, cfg).spool == [Segment(0, 0, content + bytes[..k])];
  }

  lemma AppendOnly(content: Bytes, more: Bytes)
    ensures AppendTo([Segment(0, 0, content)], 0, more) == [Segment(0, 0, content + more)]
  {}

  lemma FirstEnqueue(line: Bytes, cfg: Config)
    requires WriterLine(line) && cfg.parses(line) && |line| < cfg.segmentMaxBytes
    ensures var s1 := Next(Init(), Enqueue(line, 0, 0), cfg);
            WithFile(Next(Next(s1, Write(|line|), cfg), Abort, cfg), line, [], 0)
  {
    hide WriterLine, Gained;
    var s1 := Next(Init(), Enqueue(line, 0, 0), cfg);
    assert s1 == Init().(spool := [Segment(0, 0, [])], nextId := 1, writer := Writer(Some(0), 0),
                         job := Some(Job(line, line + [NEWLINE], 0, 0, [])));
    assert (line + [NEWLINE])[..|line|] == line && [] + line == line;
  }

  lemma {:induction false} TornState(a: Bytes, b: Bytes, cfg: Config)
    requires WriterLine(a) && WriterLine(b) && cfg.parses(a) && cfg.parses(b) && Roomy(a, b, cfg)
    ensures WithFile(Exec(Init(), Torn(a, b, cfg), cfg), TornFile(a, b), TornReceipts(a, b), |b| + |a| + 2)
  {
    hide WriterLine, Exec, Next, Tail, WithFile;
    var acts := Torn(a, b, cfg);
    FirstEnqueue(a, cfg);
    var s3 := Next(Next(Next(Init(), acts[0], cfg), acts[1], cfg), acts[2], cfg);
    assert WithFile(s3, a, s3.receipts, 0) && s3.receipts == [] by { Receipts(s3, a, [], 0); }
    OneEnqueue(s3, a, 0, b, |b| + 1, cfg);
    var s5 := Next(Next(s3, acts[3], cfg), acts[4], cfg);
    assert Tail(a) != [] by { TailClean(a); LastByte(a); }
    var mid := a + (b + [NEWLINE]);
    Receipts(s5, mid, [] + [Receipt(0, |a|, b, false)], |b| + 1);
    OneEnqueue(s5, mid, |b| + 1, a, |a| + 1, cfg);
    var s7 := Next(Next(s5, acts[5], cfg), acts[6], cfg);
    assert Tail(mid) == [] by { TailClean(mid); }
    assert [] + [Receipt(0, |a|, b, false)] + [Receipt(0, |mid|, a, true)] == TornReceipts(a, b);
    ExecSplit(Init(), acts[..5], acts[5..], cfg);
    assert acts == acts[..5] + acts[5..];
    ExecFive(Init(), acts[..5], cfg);
    assert acts[5..] == [acts[5], acts[6]];
    ExecTwo(s5, acts[5], acts[6], cfg);
  }

  lemma LastByte(a: Bytes)
    requires WriterLine(a)
    ensures !Complete(a)
  {}

  lemma Receipts(s: System, content: Bytes, receipts: seq<Receipt>, size: nat)
    requires WithFile(s, content, receipts, size)
    ensures WithFile(s, content, s.receipts, size) && s.receipts == receipts
  {}

  /**
    For all different events a and b whose lines, run together, do not parse: after the torn enqueue of a,
    the enqueue of b returns, the batch is read, accepted and acknowledged, and b is in no file that will be
    read again, in no accepted batch and in no quarantined file.
  */
  lemma {:induction false} TornEnqueueLosesNext(a: Bytes, b: Bytes, cfg: Config)
    requires WriterLine(a) && WriterLine(b) && a != b && cfg.parses(a) && cfg.parses(b) && !cfg.parses(a + b)
    requires Roomy(a, b, cfg)
    ensures var s := Exec(Init(), Torn(a, b, cfg) + [Read, MoveAway(true), Reply(true), Acknowledge], cfg);
            var lost := Receipt(0, |a|, b, false);
            && lost in s.receipts && !Accounted(s, lost, cfg)
            && s.spool == [Segment(0, 0, TornFile(a, b))] && !Unread(s.spool[0], s.reader.offsets)
  {
    hide WriterLine, Exec, Next, WithFile, Take, ParseAll, Tail;
    var s := Exec(Init(), Torn(a, b, cfg), cfg);
    var e := Round(s, cfg);
    TornState(a, b, cfg);
    ExecSplit(Init(), Torn(a, b, cfg), [Read, MoveAway(true), Reply(true), Acknowledge], cfg);
    RoundIsRun(s, cfg);
    TornRound(s, a, b, cfg);
    TornLine(a, b);
    var lost := Receipt(0, |a|, b, false);
    assert TornReceipts(a, b)[0] == lost;
    assert !OnDisk(lost, e.spool[0]);
    assert b !in [a];
  }

  lemma TornLine(a: Bytes, b: Bytes)
    requires WriterLine(a)
    ensures !Boundary(TornFile(a, b), |a|)
  {
    assert a[|a| - 1] in a;
    assert TornFile(a, b)[|a| - 1] == a[|a| - 1];
  }

  lemma TornRound(s: System, a: Bytes, b: Bytes, cfg: Config)
    requires WriterLine(a) && WriterLine(b) && cfg.parses(a) && !cfg.parses(a + b) && Roomy(a, b, cfg)
    requires WithFile(s, TornFile(a, b), TornReceipts(a, b), |b| + |a| + 2)
    ensures var e := Round(s, cfg);
            && e.spool == [Segment(0, 0, TornFile(a, b))] && e.bad == [] && e.receipts == TornReceipts(a, b)
            && e.accepted == [Batch(0, 0, 0, |TornFile(a, b)|, TornFile(a, b), [a])]
            && !Unread(e.spool[0], e.reader.offsets)
  {
    hide WriterLine, Take, ParseAll, TornFile, Touch;
    var content := TornFile(a, b);
    assert content[0..] == content && content[..|content|] == content;
    TornTexts(a, b, cfg.maxEvents, cfg.maxBytes);
    TornParse(a, b, cfg.parses);
    assert |content| > 0 by { FileLength(a, b); }
    assert Choose(s.spool, s.reader.offsets) == 0;
  }

  lemma FileLength(a: Bytes, b: Bytes)
    ensures |TornFile(a, b)| == |a| + |b| + |a| + 2
  {}
}
