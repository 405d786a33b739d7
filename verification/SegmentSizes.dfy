/**
  When the writer starts a new segment, and how large segments get: none grows beyond the configured size, unless a
  single line is longer than that.
*/
module SegmentSizes {
  import opened Wrappers
  import opened Lines
  import opened Queue
  import opened Pipeline
  import opened Invariants
  import opened Delivery
  import opened Ordering

  /**
    Exactly what comes before a write: the line goes to the current segment if it fits behind what was written there,
    else to an empty one named after the second clock reading; without a current segment an empty one is made first.
    A name that is taken is an error.
  */
  lemma PrepareExactly(writer: Writer, spool: Spool, nextId: nat, bytes: nat, max: int, t1: nat, t2: nat)
    ensures var p := Prepare(writer, spool, nextId, bytes, max, t1, t2);
            var begun := writer.current.None?;
            var size := if begun then 0 else writer.size;
            var first := if begun then spool + [Segment(t1, nextId, [])] else spool;
            var id := if begun then nextId + 1 else nextId;
            if begun && Has(spool, t1) then p == Prepared(false, writer, spool, nextId)
            else if size + bytes <= max then
              p == Prepared(true, Writer(if begun then Some(t1) else writer.current, size), first, id)
            else if Has(first, t2) then p == Prepared(false, IDLE_WRITER, first, id)
            else p == Prepared(true, Writer(Some(t2), 0), first + [Segment(t2, id, [])], id + 1)
  {
    hide IndexOf;
  }

  /** The bytes of the line in progress that are on disk. */
  function Begun(s: System): int {
    if s.job.Some? then |s.job.value.line| + 1 - |s.job.value.left| else 0
  }

  /** Segments from number `first` on are small, and the writer knows how much it has written to the current one. */
  predicate Small(s: System, first: nat, bound: int) {
    && first <= s.nextId && 0 <= bound
    && (forall i :: 0 <= i < |s.spool| && s.spool[i].id >= first ==> |s.spool[i].content| <= bound)
    && (s.writer.current.Some? ==> s.writer.size <= bound)
    && (s.writer.current.Some? ==> forall i :: 0 <= i < |s.spool| && s.spool[i].name == s.writer.current.value ==>
          s.spool[i].id >= first && |s.spool[i].content| <= s.writer.size + Begun(s))
    && (s.job.Some? ==>
          && s.writer.current.Some? && 0 < |s.job.value.left| <= |s.job.value.line| + 1
          && s.writer.size + |s.job.value.line| + 1 <= bound)
  }

  function Bound(max: int, longest: nat): int {
    if max > longest then max else longest
  }

  lemma EnqueueSmall(s: System, line: Bytes, t1: nat, t2: nat, first: nat, longest: nat, cfg: Config)
    requires Small(s, first, Bound(cfg.segmentMaxBytes, longest)) && |line| < longest
    ensures Small(DoEnqueue(s, line, t1, t2, cfg), first, Bound(cfg.segmentMaxBytes, longest))
  {
    hide IndexOf, Tail, Prepare, Open;
    if s.job.None? && WriterLine(line) && cfg.parses(line) && s.clock <= t1 <= t2 {
      PreparedSmall(s, |line| + 1, t1, t2, first, longest, cfg);
      var p := Prepare(s.writer, s.spool, s.nextId, |line| + 1, cfg.segmentMaxBytes, t1, t2);
      OpenedSmall(s.(writer := p.writer, spool := p.spool, nextId := p.nextId), p, first,
                  Bound(cfg.segmentMaxBytes, longest));
    }
  }

  lemma OpenedSmall(s: System, p: Prepared, first: nat, bound: int)
    requires Small(s, first, bound) && s.job.None? && (p.ok ==> p.writer.current.Some?)
    requires s.writer == p.writer && s.spool == p.spool && s.nextId == p.nextId
    ensures var q := Open(p);
            q.writer == p.writer && Small(s.(spool := q.spool, nextId := q.nextId), first, bound)
  {
    hide IndexOf;
  }

  lemma PreparedSmall(s: System, bytes: nat, t1: nat, t2: nat, first: nat, longest: nat, cfg: Config)
    requires Small(s, first, Bound(cfg.segmentMaxBytes, longest)) && s.job.None? && bytes <= longest
    ensures var p := Prepare(s.writer, s.spool, s.nextId, bytes, cfg.segmentMaxBytes, t1, t2);
            var s' := s.(writer := p.writer, spool := p.spool, nextId := p.nextId);
            && Small(s', first, Bound(cfg.segmentMaxBytes, longest))
            && (p.ok ==> p.writer.size + bytes <= Bound(cfg.segmentMaxBytes, longest))
  {
    hide IndexOf, Prepare;
    PrepareExactly(s.writer, s.spool, s.nextId, bytes, cfg.segmentMaxBytes, t1, t2);
  }

  lemma WriteSmall(s: System, k: nat, first: nat, bound: int, cfg: Config)
    requires Small(s, first, bound) && Sorted(s.spool)
    ensures Small(DoWrite(s, k, cfg), first, bound)
  {
    hide Gained;
    if s.job.Some? && 0 < k <= |s.job.value.left| && Has(s.spool, s.writer.current.value) {
      var name, left := s.writer.current.value, s.job.value.left;
      var i := IndexOf(s.spool, name);
      var spool := AppendTo(s.spool, name, left[..k]);
      assert spool == s.spool[i := s.spool[i].(content := s.spool[i].content + left[..k])];
      assert |spool[i].content| == |s.spool[i].content| + k;
    }
  }

  lemma FewerSmall(s: System, e: System, first: nat, bound: int)
    requires Small(s, first, bound) && forall i :: 0 <= i < |e.spool| ==> e.spool[i] in s.spool
    requires e.writer == s.writer && e.job == s.job && e.nextId == s.nextId
    ensures Small(e, first, bound)
  {}

  lemma AbortSmall(s: System, first: nat, bound: int)
    requires Small(s, first, bound) && Smooth(s, Abort)
    ensures Small(s.(job := None), first, bound)
  {}

  /** The steps of reader, shipper and server only take segments away. */
  lemma ReaderSteps(s: System, a: Action, cfg: Config)
    requires !a.Enqueue? && !a.Write? && !a.Abort? && !a.Crash? && Sorted(s.spool)
    ensures var e := Next(s, a, cfg);
            && (forall i :: 0 <= i < |e.spool| ==> e.spool[i] in s.spool)
            && e.writer == s.writer && e.job == s.job && e.nextId == s.nextId
  {
    hide Take, Choose, Touch, ParseAll, Keep, IndexOf, Sweepable, NoteStreak, ReadFails, UnreadBytes;
    if a.Sweep? {
      KeepSorted(s.spool, a.gone);
    }
  }

  lemma StepSmall(s: System, a: Action, first: nat, longest: nat, cfg: Config)
    requires Inv(s, cfg) && Small(s, first, Bound(cfg.segmentMaxBytes, longest))
    requires Smooth(s, a) && (a.Enqueue? ==> |a.line| < longest)
    ensures Small(Next(s, a, cfg), first, Bound(cfg.segmentMaxBytes, longest))
  {
    hide Small, DoEnqueue, DoWrite, DoRead, DoMoveAway, DoReply, DoAcknowledge, DoSweep, ReadFails, Inv;
    var bound := Bound(cfg.segmentMaxBytes, longest);
    InvParts(s, cfg);
    match a
    case Enqueue(line, t1, t2) => EnqueueSmall(s, line, t1, t2, first, longest, cfg);
    case Write(k) => WriteSmall(s, k, first, bound, cfg);
    case Abort => AbortSmall(s, first, bound);
    case _ =>
      ReaderSteps(s, a, cfg);
      FewerSmall(s, Next(s, a, cfg), first, bound);
  }

  predicate ShortLines(actions: seq<Action>, longest: nat) {
    forall a :: a in actions && a.Enqueue? ==> |a.line| < longest
  }

  lemma {:induction false} RunSmall(s: System, actions: seq<Action>, first: nat, longest: nat, cfg: Config)
    requires Inv(s, cfg) && Small(s, first, Bound(cfg.segmentMaxBytes, longest))
    requires Running(s, actions, cfg) && ShortLines(actions, longest)
    ensures Small(Exec(s, actions, cfg), first, Bound(cfg.segmentMaxBytes, longest))
    decreases |actions|
  {
    hide Inv, Next, Small;
    if actions != [] {
      assert actions[0] in actions;
      InvNext(s, actions[0], cfg);
      StepSmall(s, actions[0], first, longest, cfg);
      assert forall a :: a in actions[1..] ==> a in actions;
      RunSmall(Next(s, actions[0], cfg), actions[1..], first, longest, cfg);
    }
  }

  /**
    After any history and a restart, in a run in which no enqueue fails half-way: no segment made since then is larger
    than the configured size, or than the longest line with its newline if that is more.
  */
  lemma {:induction false} SegmentsStaySmall(before: seq<Action>, after: seq<Action>, longest: nat, cfg: Config, i: nat)
    requires Running(Next(Exec(Init(), before, cfg), Crash, cfg), after, cfg) && ShortLines(after, longest)
    requires i < |Exec(Next(Exec(Init(), before, cfg), Crash, cfg), after, cfg).spool|
    ensures var start := Next(Exec(Init(), before, cfg), Crash, cfg);
            var segment := Exec(start, after, cfg).spool[i];
            segment.id >= start.nextId ==>
              |segment.content| <= longest || |segment.content| <= cfg.segmentMaxBytes
  {
    hide Inv, AllEvents;
    var s := Exec(Init(), before, cfg);
    var start := Next(s, Crash, cfg);
    InvInit(cfg);
    InvExec(Init(), before, cfg);
    InvNext(s, Crash, cfg);
    assert Small(start, start.nextId, Bound(cfg.segmentMaxBytes, longest)) by {
      InvParts(start, cfg);
      hide IndexOf;
    }
    RunSmall(start, after, start.nextId, longest, cfg);
  }
}
