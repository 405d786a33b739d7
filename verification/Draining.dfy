/**
  When the queue drains and when it is stuck: one round of read, ship and acknowledge lowers the
  number of unread bytes exactly when it hands over an event or quarantines a segment; a well-formed
  queue drains completely; and a segment whose next read yields nothing blocks everything behind it.
*/
module Draining {
  import opened Wrappers
  import opened Lines
  import opened Queue
  import opened Pipeline
  import opened Invariants
  import opened Delivery
  import opened Ordering

  // ---------------------------------------------------------------- unread bytes

  function RestBytes(segment: Segment, offsets: Offsets): nat {
    var offset := OffsetOf(offsets, segment.name);
    if offset <= |segment.content| then |segment.content| - offset else 0
  }

  function UnreadTotal(spool: Spool, offsets: Offsets): nat {
    if spool == [] then 0 else RestBytes(spool[0], offsets) + UnreadTotal(spool[1..], offsets)
  }

  lemma {:induction false} TotalOfConcat(a: Spool, b: Spool, offsets: Offsets)
    ensures UnreadTotal(a + b, offsets) == UnreadTotal(a, offsets) + UnreadTotal(b, offsets)
  {
    if a == [] {
      assert a + b == b;
    } else {
      assert (a + b)[1..] == a[1..] + b;
      TotalOfConcat(a[1..], b, offsets);
    }
  }

  lemma {:induction false} TotalCut(spool: Spool, i: nat, offsets: Offsets)
    requires i < |spool|
    ensures UnreadTotal(spool, offsets) ==
            UnreadTotal(spool[..i], offsets) + RestBytes(spool[i], offsets) + UnreadTotal(spool[i + 1..], offsets)
  {
    assert spool == spool[..i] + spool[i..];
    TotalOfConcat(spool[..i], spool[i..], offsets);
  }

  lemma {:induction false} TotalSame(spool: Spool, offsets: Offsets, offsets': Offsets)
    requires forall i :: 0 <= i < |spool| ==> OffsetOf(offsets', spool[i].name) == OffsetOf(offsets, spool[i].name)
    ensures UnreadTotal(spool, offsets') == UnreadTotal(spool, offsets)
  {
    if spool != [] {
      TotalSame(spool[1..], offsets, offsets');
    }
  }

  lemma {:induction false} TotalZero(spool: Spool, offsets: Offsets)
    ensures UnreadTotal(spool, offsets) == 0 <==> Choose(spool, offsets) == |spool|
  {
    if spool != [] {
      TotalZero(spool[1..], offsets);
    }
  }

  lemma TotalCommit(spool: Spool, offsets: Offsets, name: nat, end: nat)
    requires Sorted(spool) && Has(spool, name)
    requires OffsetOf(offsets, name) <= end <= |spool[IndexOf(spool, name)].content|
    ensures UnreadTotal(spool, offsets[name := end]) == UnreadTotal(spool, offsets) - (end - OffsetOf(offsets, name))
  {
    hide IndexOf, UnreadTotal;
    var i := IndexOf(spool, name);
    var offsets' := offsets[name := end];
    forall j | 0 <= j < |spool| && j != i
      ensures spool[j].name != name
    {
      IndexOfSorted(spool, j);
    }
    TotalCut(spool, i, offsets);
    TotalCut(spool, i, offsets');
    TotalSame(spool[..i], offsets, offsets');
    TotalSame(spool[i + 1..], offsets, offsets');
  }

  lemma {:induction false} TotalWithout(spool: Spool, offsets: Offsets, i: nat)
    requires Sorted(spool) && i < |spool|
    ensures UnreadTotal(Without(spool, i), offsets - {spool[i].name}) ==
            UnreadTotal(spool, offsets) - RestBytes(spool[i], offsets)
  {
    hide UnreadTotal;
    var offsets' := offsets - {spool[i].name};
    TotalCut(spool, i, offsets);
    TotalOfConcat(spool[..i], spool[i + 1..], offsets');
    TotalSame(spool[..i], offsets, offsets');
    TotalSame(spool[i + 1..], offsets, offsets');
  }

  // ---------------------------------------------------------------- one round

  /** One round of the shipper's loop when the server takes everything and moving a file works. */
  function Round(s: System, cfg: Config): System {
    DoAcknowledge(DoReply(DoMoveAway(DoRead(s, cfg), true), true))
  }

  lemma {:induction false} RoundIsRun(s: System, cfg: Config)
    ensures Round(s, cfg) == Exec(s, [Read, MoveAway(true), Reply(true), Acknowledge], cfg)
  {
    hide DoRead, DoMoveAway, DoReply, DoAcknowledge;
    hide Exec;
    var actions := [Read, MoveAway(true), Reply(true), Acknowledge];
    var s1 := Next(s, Read, cfg);
    var s2 := Next(s1, MoveAway(true), cfg);
    var s3 := Next(s2, Reply(true), cfg);
    assert actions[0..] == actions;
    ExecFrom(s, actions, 0, cfg);
    ExecFrom(s1, actions, 1, cfg);
    ExecFrom(s2, actions, 2, cfg);
    ExecFrom(s3, actions, 3, cfg);
    assert actions[4..] == [];
    ExecDone(Next(s3, Acknowledge, cfg), cfg);
  }

  function ReadOf(s: System, cfg: Config): ReadStep {
    Queue.Read(s.reader, s.spool, cfg.maxEvents, cfg.maxBytes, cfg.parses)
  }

  /** A round that reads events commits them, and moves the offset past the bytes read. */
  lemma RoundCommits(s: System, cfg: Config)
    requires Inv(s, cfg) && ReaderFree(s) && ReadOf(s, cfg).poisoned.None? && ReadOf(s, cfg).events != []
    ensures var s1 := DoRead(s, cfg);
            var e := Round(s, cfg);
            && s1.held.Some? && BatchOk(s.spool, s.reader.offsets, s1.held.value, cfg.parses)
            && e.spool == s.spool && e.reader.offsets == s1.reader.offsets[s1.held.value.name := s1.held.value.end]
            && e.committed == s.committed + s1.held.value.events && s1.held.value.events == ReadOf(s, cfg).events
            && s1.held.value.end > s1.held.value.start && ReaderFree(e)
            && e.job == s.job
  {
    hide IndexOf, Take, ParseAll, Touch, Choose, BatchOk, DiskOk, WriterOk, OffsetsOk, LastOk;
    InvParts(s, cfg);
    ReadBatchOk(s, cfg);
    SomethingConsumed(s, cfg);
  }

  lemma SomethingConsumed(s: System, cfg: Config)
    requires ReadOf(s, cfg).events != []
    ensures var i := Choose(s.spool, s.reader.offsets);
            i < |s.spool| && Take(UnreadBytes(s.spool, s.reader.offsets, i), cfg.maxEvents, cfg.maxBytes).consumed > 0
  {
    hide Choose, Touch;
  }

  /**
    One round lowers the number of unread bytes if and only if it hands over an event or finds the segment
    poisoned. Otherwise it changes neither offsets nor files.
  */
  lemma RoundProgress(s: System, cfg: Config)
    requires Inv(s, cfg) && ReaderFree(s) && s.job.None?
    ensures var e := Round(s, cfg);
            var step := ReadOf(s, cfg);
            && (UnreadTotal(e.spool, e.reader.offsets) < UnreadTotal(s.spool, s.reader.offsets)
                <==> step.events != [] || step.poisoned.Some?)
            && (step.events == [] && step.poisoned.None? ==>
                  e.spool == s.spool && e.committed == s.committed && ReaderFree(e)
                  && forall n :: OffsetOf(e.reader.offsets, n) == OffsetOf(s.reader.offsets, n))
  {
    hide IndexOf, Take, ParseAll, Touch, Choose, BatchOk, Inv, UnreadTotal, Without;
    InvParts(s, cfg);
    var s1 := DoRead(s, cfg);
    var e := Round(s, cfg);
    var step := ReadOf(s, cfg);
    TotalSame(s.spool, s.reader.offsets, step.reader.offsets);
    if step.poisoned.Some? {
      RoundPoisoned(s, cfg);
    } else if step.events != [] {
      RoundCommits(s, cfg);
      var b := s1.held.value;
      CommitLowers(s.spool, s.reader.offsets, s1.reader.offsets, b, cfg.parses);
    }
  }

  lemma {:induction false} CommitLowers(spool: Spool, offsets: Offsets, touched: Offsets, b: Batch,
                                        parses: Bytes -> bool)
    requires Sorted(spool) && BatchOk(spool, offsets, b, parses) && b.end > b.start
    requires forall n :: OffsetOf(touched, n) == OffsetOf(offsets, n)
    ensures UnreadTotal(spool, touched[b.name := b.end]) < UnreadTotal(spool, offsets)
  {
    hide UnreadTotal, IndexOf, Events;
    TotalSame(spool, offsets, touched);
    TotalCommit(spool, touched, b.name, b.end);
  }

  lemma RoundPoisoned(s: System, cfg: Config)
    requires Inv(s, cfg) && ReaderFree(s) && s.job.None? && ReadOf(s, cfg).poisoned.Some?
    ensures var e := Round(s, cfg);
            UnreadTotal(e.spool, e.reader.offsets) < UnreadTotal(s.spool, s.reader.offsets)
  {
    hide Take, ParseAll, Touch, Choose, BatchOk, UnreadTotal, Without, IndexOf;
    InvParts(s, cfg);
    var i := Choose(s.spool, s.reader.offsets);
    IndexOfSorted(s.spool, i);
    var touched := ReadOf(s, cfg).reader.offsets;
    TotalSame(s.spool, s.reader.offsets, touched);
    TotalWithout(s.spool, touched, i);
    var e := Round(s, cfg);
    assert e.spool == Without(s.spool, i);
    assert e.reader.offsets == touched - {s.spool[i].name};
  }

  // ---------------------------------------------------------------- a well-formed queue drains

  /** Complete lines of writer events, none longer (with its newline) than a read can take. */
  predicate Digestible(s: Bytes, maxBytes: int, parses: Bytes -> bool)
    decreases |s|
  {
    s == [] ||
    (var n := LineEnd(s);
     && 0 < n <= maxBytes
     && WriterLine(s[..n - 1]) && parses(s[..n - 1])
     && Digestible(s[n..], maxBytes, parses))
  }

  predicate WellFormed(spool: Spool, offsets: Offsets, cfg: Config) {
    forall i :: 0 <= i < |spool| && Unread(spool[i], offsets) ==>
                  Digestible(UnreadBytes(spool, offsets, i), cfg.maxBytes, cfg.parses)
  }

  /** A read of digestible bytes takes at least one event, only events, and leaves digestible bytes. */
  lemma {:induction false} TakeDigestible(s: Bytes, maxEvents: int, maxBytes: int, room: int, streak: nat,
                                          parses: Bytes -> bool)
    requires Digestible(s, maxBytes, parses)
    ensures var r := Take(s, maxEvents, room);
            && Digestible(s[r.consumed..], maxBytes, parses)
            && !ParseAll(r.texts, streak, parses).poisoned
            && ParseAll(r.texts, streak, parses).events == r.texts
            && (s != [] && maxEvents > 0 && room >= maxBytes ==> r.texts != [])
    decreases |s|
  {
    hide LineEnd, LineText, Texts, Fits, Take, Digestible, ParseAll, WriterLine;
    var n := LineEnd(s);
    if s == [] {
      NoTexts();
      NoLine(s, maxEvents, room);
      ParseNothing(streak, parses);
    } else {
      FirstDigestible(s, maxEvents, maxBytes, room, parses);
      if maxEvents <= 0 || room <= 0 || n > room {
        assert s[0..] == s;
        ParseNothing(streak, parses);
      } else {
        var rest := Take(s[n..], maxEvents - 1, room - n);
        TakeDigestible(s[n..], maxEvents - 1, maxBytes, room - n, 0, parses);
        assert s[n..][rest.consumed..] == s[n + rest.consumed..];
        ParseFirst(s[..n - 1], rest.texts, streak, parses);
      }
    }
  }

  lemma FirstDigestible(s: Bytes, maxEvents: int, maxBytes: int, room: int, parses: Bytes -> bool)
    requires Digestible(s, maxBytes, parses) && s != []
    ensures var n := LineEnd(s);
            && 0 < n <= maxBytes && parses(s[..n - 1]) && Digestible(s[n..], maxBytes, parses)
            && Take(s, maxEvents, room) ==
               if maxEvents <= 0 || room <= 0 || n > room then ReadResult([], 0, false)
               else After([s[..n - 1]], n, Take(s[n..], maxEvents - 1, room - n))
  {
    hide LineText, Texts, Fits, Take, Digestible, WriterLine;
    DigestibleFirst(s, maxBytes, parses);
    FirstLine(s, maxEvents, room);
    WriterLineText(s[..LineEnd(s) - 1]);
  }

  lemma {:induction false} DigestibleFirst(s: Bytes, maxBytes: int, parses: Bytes -> bool)
    requires Digestible(s, maxBytes, parses)
    ensures s == [] || (var n := LineEnd(s);
                        && 0 < n <= maxBytes && WriterLine(s[..n - 1]) && parses(s[..n - 1])
                        && Digestible(s[n..], maxBytes, parses))
  {}

  lemma {:induction false} ParseNothing(streak: nat, parses: Bytes -> bool)
    ensures ParseAll([], streak, parses) == Parsed([], streak, false)
  {}

  lemma {:induction false} ParseFirst(text: Bytes, rest: seq<Bytes>, streak: nat, parses: Bytes -> bool)
    requires parses(text)
    ensures var p, q := ParseAll([text] + rest, streak, parses), ParseAll(rest, 0, parses);
            p == q.(events := [text] + q.events)
  {
    assert ([text] + rest)[1..] == rest;
  }

  function Rounds(s: System, n: nat, cfg: Config): System
    decreases n
  {
    if n == 0 then s else Rounds(Round(s, cfg), n - 1, cfg)
  }

  lemma RoundInv(s: System, cfg: Config)
    requires Inv(s, cfg)
    ensures Inv(Round(s, cfg), cfg)
  {
    hide Inv, Next, Round;
    RoundIsRun(s, cfg);
    InvExec(s, [Read, MoveAway(true), Reply(true), Acknowledge], cfg);
  }

  /** A round on a well-formed queue with unread bytes commits events and leaves it well-formed. */
  lemma RoundWellFormed(s: System, cfg: Config)
    requires Inv(s, cfg) && ReaderFree(s) && WellFormed(s.spool, s.reader.offsets, cfg) && cfg.maxEvents > 0
    requires Choose(s.spool, s.reader.offsets) < |s.spool|
    ensures ReadOf(s, cfg).events != [] && ReadOf(s, cfg).poisoned.None?
    ensures var e := Round(s, cfg);
            && WellFormed(e.spool, e.reader.offsets, cfg) && ReaderFree(e) && e.job == s.job
            && e.committed + UnreadEvents(e.spool, e.reader.offsets, cfg.parses)
               == s.committed + UnreadEvents(s.spool, s.reader.offsets, cfg.parses)
  {
    hide IndexOf, Take, ParseAll, Touch, Choose, BatchOk, Inv, Digestible, UnreadEvents, WellFormed;
    InvParts(s, cfg);
    var i := Choose(s.spool, s.reader.offsets);
    ReadDigests(s, cfg);
    RoundCommits(s, cfg);
    var b := DoRead(s, cfg).held.value;
    var e := Round(s, cfg);
    CommitUnread(s.spool, s.reader.offsets, b, cfg.parses);
    UnreadSame(s.spool, s.reader.offsets[b.name := b.end], e.reader.offsets, cfg.parses);
    StillWellFormed(s.spool, s.reader.offsets, e.reader.offsets, i, b.end, cfg);
  }

  /** Such a read hands over events, poisons nothing, and what it leaves of the segment is well-formed. */
  lemma ReadDigests(s: System, cfg: Config)
    requires Sorted(s.spool) && ReaderFree(s) && WellFormed(s.spool, s.reader.offsets, cfg) && cfg.maxEvents > 0
    requires Choose(s.spool, s.reader.offsets) < |s.spool|
    ensures ReadOf(s, cfg).events != [] && ReadOf(s, cfg).poisoned.None? && DoRead(s, cfg).held.Some?
    ensures var i := Choose(s.spool, s.reader.offsets);
            var b := DoRead(s, cfg).held.value;
            && b.name == s.spool[i].name && b.end <= |s.spool[i].content|
            && Digestible(s.spool[i].content[b.end..], cfg.maxBytes, cfg.parses)
  {
    hide IndexOf, Take, ParseAll, Touch, Choose, Digestible;
    var i := Choose(s.spool, s.reader.offsets);
    var unread := UnreadBytes(s.spool, s.reader.offsets, i);
    var r := Take(unread, cfg.maxEvents, cfg.maxBytes);
    TakeDigestible(unread, cfg.maxEvents, cfg.maxBytes, cfg.maxBytes, OffsetOf(s.reader.failures, s.spool[i].name),
        cfg.parses);
    assert unread[r.consumed..] == s.spool[i].content[DoRead(s, cfg).held.value.end..];
  }

  lemma StillWellFormed(spool: Spool, offsets: Offsets, offsets': Offsets, i: nat, end: nat, cfg: Config)
    requires Sorted(spool) && WellFormed(spool, offsets, cfg) && i < |spool| && end <= |spool[i].content|
    requires forall n :: OffsetOf(offsets', n) == if n == spool[i].name then end else OffsetOf(offsets, n)
    requires Digestible(spool[i].content[end..], cfg.maxBytes, cfg.parses)
    ensures WellFormed(spool, offsets', cfg)
  {
    hide Digestible, OffsetOf;
    forall j | 0 <= j < |spool| && Unread(spool[j], offsets')
      ensures Digestible(UnreadBytes(spool, offsets', j), cfg.maxBytes, cfg.parses)
    {
      if j != i {
        assert spool[j].name != spool[i].name;
        assert Unread(spool[j], offsets);
        assert UnreadBytes(spool, offsets', j) == UnreadBytes(spool, offsets, j);
      }
    }
  }

  /**
    Draining terminates: with no writer and a server that accepts, a well-formed queue is empty after at most
    as many rounds as it has unread bytes, and everything that was unread has been acknowledged in order.
  */
  lemma {:induction false} Drains(s: System, cfg: Config) returns (n: nat)
    requires Inv(s, cfg) && ReaderFree(s) && s.job.None? && cfg.maxEvents > 0
    requires WellFormed(s.spool, s.reader.offsets, cfg)
    ensures n <= UnreadTotal(s.spool, s.reader.offsets)
    ensures var e := Rounds(s, n, cfg);
            && UnreadTotal(e.spool, e.reader.offsets) == 0
            && e.committed == s.committed + UnreadEvents(s.spool, s.reader.offsets, cfg.parses)
    decreases UnreadTotal(s.spool, s.reader.offsets)
  {
    hide Inv, WellFormed, Round, UnreadEvents, UnreadTotal, Choose, ReadOf;
    TotalZero(s.spool, s.reader.offsets);
    if UnreadTotal(s.spool, s.reader.offsets) == 0 {
      n := 0;
      AllRead(s.spool, s.reader.offsets, cfg.parses);
    } else {
      RoundWellFormed(s, cfg);
      RoundProgress(s, cfg);
      RoundInv(s, cfg);
      var m := Drains(Round(s, cfg), cfg);
      n := m + 1;
    }
  }

  lemma {:induction false} AllRead(spool: Spool, offsets: Offsets, parses: Bytes -> bool)
    requires Choose(spool, offsets) == |spool|
    ensures UnreadEvents(spool, offsets, parses) == []
  {
    UnreadNone(spool, offsets, parses);
  }

  // ---------------------------------------------------------------- progress, sooner or later

  /** The texts that the next read takes, whether they parse or not. */
  function NextTexts(s: System, cfg: Config): seq<Bytes>
    requires Choose(s.spool, s.reader.offsets) < |s.spool|
  {
    Take(UnreadBytes(s.spool, s.reader.offsets, Choose(s.spool, s.reader.offsets)), cfg.maxEvents, cfg.maxBytes).texts
  }

  function StreakOf(s: System): nat
    requires Choose(s.spool, s.reader.offsets) < |s.spool|
  {
    OffsetOf(s.reader.failures, s.spool[Choose(s.spool, s.reader.offsets)].name)
  }

  lemma {:induction false} NoneParse(texts: seq<Bytes>, streak: nat, parses: Bytes -> bool)
    requires ParseAll(texts, streak, parses).events == [] && !ParseAll(texts, streak, parses).poisoned
    ensures ParseAll(texts, streak, parses).streak == streak + |texts|
    ensures texts != [] ==> streak + |texts| < QUARANTINE_THRESHOLD
  {
    if texts != [] {
      NoneParse(texts[1..], streak + 1, parses);
    }
  }

  /** A round that takes neither an event nor a poisoned segment looks at the same texts again, with a longer streak. */
  lemma SameTextsAgain(s: System, cfg: Config)
    requires Inv(s, cfg) && ReaderFree(s) && s.job.None? && Choose(s.spool, s.reader.offsets) < |s.spool|
    requires ReadOf(s, cfg).events == [] && ReadOf(s, cfg).poisoned.None?
    ensures var e := Round(s, cfg);
            && Inv(e, cfg) && ReaderFree(e) && e.job.None? && e.spool == s.spool
            && UnreadTotal(e.spool, e.reader.offsets) == UnreadTotal(s.spool, s.reader.offsets)
            && Choose(e.spool, e.reader.offsets) == Choose(s.spool, s.reader.offsets)
            && NextTexts(e, cfg) == NextTexts(s, cfg)
            && StreakOf(e) == StreakOf(s) + |NextTexts(s, cfg)|
            && (NextTexts(s, cfg) != [] ==> StreakOf(e) < QUARANTINE_THRESHOLD)
  {
    hide IndexOf, Take, ParseAll, Touch, Choose, Inv, UnreadTotal;
    var e := Round(s, cfg);
    RoundInv(s, cfg);
    var texts := NextTexts(s, cfg);
    if texts == [] {
      ParseNothing(StreakOf(s), cfg.parses);
    } else {
      NoneParse(texts, StreakOf(s), cfg.parses);
    }
    ChooseSame(s.spool, s.reader.offsets, e.reader.offsets);
    TotalSame(s.spool, s.reader.offsets, e.reader.offsets);
  }

  function Left(streak: nat): nat {
    if streak < QUARANTINE_THRESHOLD then QUARANTINE_THRESHOLD - streak else 0
  }

  /** A read that takes a text leads to progress within so many rounds as are left before quarantine, or at once. */
  lemma {:induction false} TextsProgress(s: System, cfg: Config) returns (n: nat)
    requires Inv(s, cfg) && ReaderFree(s) && s.job.None? && Choose(s.spool, s.reader.offsets) < |s.spool|
    requires NextTexts(s, cfg) != []
    ensures 0 < n <= 1 + Left(StreakOf(s)) &&
            var e := Rounds(s, n, cfg);
            UnreadTotal(e.spool, e.reader.offsets) < UnreadTotal(s.spool, s.reader.offsets)
    decreases Left(StreakOf(s))
  {
    hide Choose, Take, UnreadTotal, Inv, Round, Queue.Read, NextTexts, StreakOf;
    RoundProgress(s, cfg);
    if ReadOf(s, cfg).events != [] || ReadOf(s, cfg).poisoned.Some? {
      n := 1;
      assert Rounds(s, 1, cfg) == Rounds(Round(s, cfg), 0, cfg) == Round(s, cfg);
    } else {
      SameTextsAgain(s, cfg);
      var m := TextsProgress(Round(s, cfg), cfg);
      n := m + 1;
    }
  }

  /** Without a text nothing ever changes. */
  lemma {:induction false} NoTextNoProgress(s: System, n: nat, cfg: Config)
    requires Inv(s, cfg) && ReaderFree(s) && s.job.None? && Choose(s.spool, s.reader.offsets) < |s.spool|
    requires NextTexts(s, cfg) == []
    ensures var e := Rounds(s, n, cfg);
            UnreadTotal(e.spool, e.reader.offsets) == UnreadTotal(s.spool, s.reader.offsets)
    decreases n
  {
    hide Choose, Take, UnreadTotal, Inv, Round, NextTexts, StreakOf;
    if n > 0 {
      NothingParsed(s, cfg);
      SameTextsAgain(s, cfg);
      NoTextNoProgress(Round(s, cfg), n - 1, cfg);
    }
  }

  lemma NothingParsed(s: System, cfg: Config)
    requires Choose(s.spool, s.reader.offsets) < |s.spool| && NextTexts(s, cfg) == []
    ensures ReadOf(s, cfg).events == [] && ReadOf(s, cfg).poisoned.None?
  {
    hide Choose, Take, Touch, NoteStreak;
  }

  /**
    With bytes unread, no writer and a server that accepts: the number of unread bytes falls sooner or later exactly
    if the next read takes a text, be it an event or not, and then within 21 rounds.
  */
  lemma {:induction false} ProgressExactly(s: System, cfg: Config)
    requires Inv(s, cfg) && ReaderFree(s) && s.job.None? && Choose(s.spool, s.reader.offsets) < |s.spool|
    ensures NextTexts(s, cfg) != [] <==>
            exists n: nat :: n <= QUARANTINE_THRESHOLD + 1 && Falls(s, n, cfg)
    ensures NextTexts(s, cfg) == [] ==> forall n: nat :: !Falls(s, n, cfg)
  {
    hide Choose, Take, UnreadTotal, Inv, Round, NextTexts, StreakOf, Rounds;
    if NextTexts(s, cfg) != [] {
      var n := TextsProgress(s, cfg);
      assert Falls(s, n, cfg);
    } else {
      forall n: nat ensures !Falls(s, n, cfg) {
        NoTextNoProgress(s, n, cfg);
      }
    }
  }

  predicate Falls(s: System, n: nat, cfg: Config) {
    var e := Rounds(s, n, cfg);
    UnreadTotal(e.spool, e.reader.offsets) < UnreadTotal(s.spool, s.reader.offsets)
  }

  // ---------------------------------------------------------------- head-of-line blocking

  /** The oldest unread segment is not the newest, and the next read of it yields no line at all. */
  predicate Blocked(s: System, cfg: Config) {
    var i := Choose(s.spool, s.reader.offsets);
    && ReaderFree(s)
    && i < |s.spool| - 1
    && Take(UnreadBytes(s.spool, s.reader.offsets, i), cfg.maxEvents, cfg.maxBytes).texts == []
  }

  /** The three ways to get there: a torn line, a line too long for a read, a read without room. */
  lemma BlockedWhen(s: System, cfg: Config)
    requires ReaderFree(s) && Choose(s.spool, s.reader.offsets) < |s.spool| - 1
    requires var unread := UnreadBytes(s.spool, s.reader.offsets, Choose(s.spool, s.reader.offsets));
             Exhausted(unread, cfg.maxBytes) || cfg.maxEvents <= 0 || cfg.maxBytes <= 0
    ensures Blocked(s, cfg)
  {
    hide Choose;
  }

  lemma BlockedWriter(s: System, a: Action, cfg: Config)
    requires Inv(s, cfg) && Blocked(s, cfg) && (a.Enqueue? || a.Write?)
    ensures var s' := Next(s, a, cfg);
            Blocked(s', cfg) && s'.accepted == s.accepted && s'.committed == s.committed
  {
    hide IndexOf, Take, Choose, Evolves, Inv, Prepare, Open, Tail, Gained;
    InvParts(s, cfg);
    var s' := Next(s, a, cfg);
    match a {
      case Enqueue(line, t1, t2) => EnqueueEvolves(s, line, t1, t2, cfg);
      case Write(k) => WriteEvolves(s, k, cfg);
    }
    var i := Choose(s.spool, s.reader.offsets);
    SameHead(s.spool, s'.spool, s.reader.offsets);
  }

  lemma {:induction false} SameHead(before: Spool, after: Spool, offsets: Offsets)
    requires Evolves(before, after) && Choose(before, offsets) < |before| - 1
    ensures Choose(after, offsets) == Choose(before, offsets) < |after| - 1
    ensures after[Choose(before, offsets)] == before[Choose(before, offsets)]
  {
    hide Choose;
    var i := Choose(before, offsets);
    var k := Choose(after, offsets);
    assert forall j :: 0 <= j <= i ==> after[j] == before[j];
    assert !(k < i) && !(i < k);
  }

  lemma {:induction false} KeepHead(spool: Spool, offsets: Offsets, gone: set<nat>)
    requires Sorted(spool) && Choose(spool, offsets) < |spool| - 1
    requires forall i :: 0 <= i < |spool| && spool[i].name in gone ==> i < |spool| - 1 && !Unread(spool[i], offsets)
    ensures var kept := Keep(spool, gone);
            var i, k := Choose(spool, offsets), Choose(kept, offsets - gone);
            k < |kept| - 1 && kept[k] == spool[i] && kept[k].name !in gone
  {
    hide Choose, Keep;
    var i := Choose(spool, offsets);
    var older, kept := Keep(spool[..i], gone), Keep(spool, gone);
    var k := |older|;
    KeepCut(spool, gone, i);
    KeepOne(spool[i], gone);
    KeepHas(spool[i + 1..], gone, |spool| - i - 2);
    KeepSorted(spool[..i], gone);
    forall j | 0 <= j < k
      ensures !Unread(kept[j], offsets - gone)
    {
      assert kept[j] == older[j];
      assert older[j] in spool[..i];
    }
    assert kept[k] == spool[i] && Unread(kept[k], offsets - gone);
    var c := Choose(kept, offsets - gone);
    assert !(c < k) && !(k < c);
  }

  lemma BlockedSweep(s: System, gone: set<nat>, cfg: Config)
    requires Inv(s, cfg) && Blocked(s, cfg)
    ensures Blocked(DoSweep(s, gone), cfg)
  {
    hide IndexOf, Take, Choose, Keep, Inv;
    InvParts(s, cfg);
    if Sweepable(s.spool, s.reader.offsets, gone) {
      forall i | 0 <= i < |s.spool| && s.spool[i].name in gone
        ensures i < |s.spool| - 1 && !Unread(s.spool[i], s.reader.offsets)
      {
        IndexOfSorted(s.spool, i);
      }
      KeepHead(s.spool, s.reader.offsets, gone);
    }
  }

  lemma {:induction false} ChooseSame(spool: Spool, offsets: Offsets, offsets': Offsets)
    requires forall n :: OffsetOf(offsets', n) == OffsetOf(offsets, n)
    ensures Choose(spool, offsets') == Choose(spool, offsets)
  {
    hide Choose;
    var i, k := Choose(spool, offsets), Choose(spool, offsets');
    assert !(k < i) && !(i < k);
  }

  lemma BlockedNext(s: System, a: Action, cfg: Config)
    requires Inv(s, cfg) && Blocked(s, cfg) && !a.Crash?
    ensures var s' := Next(s, a, cfg);
            Blocked(s', cfg) && s'.accepted == s.accepted && s'.committed == s.committed
  {
    hide IndexOf, Take, Choose, Touch, Inv, DoSweep, DoEnqueue, DoWrite, ReadFails;
    var s' := Next(s, a, cfg);
    match a
    case Enqueue(line, t1, t2) => BlockedWriter(s, a, cfg);
    case Write(k) => BlockedWriter(s, a, cfg);
    case Sweep(gone) => BlockedSweep(s, gone, cfg); SweepQuiet(s, gone);
    case Read => ChooseSame(s.spool, s.reader.offsets, s'.reader.offsets);
    case ReadFailed => ReadFailedOffsets(s); ChooseSame(s.spool, s.reader.offsets, s'.reader.offsets);
    case _ =>
  }

  lemma SweepQuiet(s: System, gone: set<nat>)
    ensures DoSweep(s, gone).accepted == s.accepted && DoSweep(s, gone).committed == s.committed
  {
    hide Sweepable, Keep;
  }

  /**
    A blocked queue stays blocked: whatever is enqueued behind it and however long the shipper keeps trying,
    no batch is delivered or acknowledged any more in this run of the process.
  */
  lemma {:induction false} BlockedForever(s: System, actions: seq<Action>, cfg: Config)
    requires Inv(s, cfg) && Blocked(s, cfg) && forall a :: a in actions ==> !a.Crash?
    ensures var e := Exec(s, actions, cfg);
            Blocked(e, cfg) && e.accepted == s.accepted && e.committed == s.committed
    decreases |actions|
  {
    hide Inv, Next, Blocked;
    if actions != [] {
      var a := actions[0];
      assert a in actions;
      InvNext(s, a, cfg);
      BlockedNext(s, a, cfg);
      BlockedForever(Next(s, a, cfg), actions[1..], cfg);
    }
  }

  // ---------------------------------------------------------------- a torn line at the head

  /** The oldest segment holds nothing but the beginning of a line, and there is a newer one. */
  predicate TornHead(s: System) {
    && ReaderFree(s)
    && |s.spool| >= 2
    && s.spool[0].content != [] && NEWLINE !in s.spool[0].content
  }

  lemma TornHeadBlocks(s: System, cfg: Config)
    requires Inv(s, cfg) && TornHead(s)
    ensures Blocked(s, cfg)
  {
    hide IndexOf, Take, DiskOk, WriterOk, LastOk;
    var content := s.spool[0].content;
    var offset := OffsetOf(s.reader.offsets, s.spool[0].name);
    assert Boundary(content, offset);
    assert offset == 0;
    assert content[0..] == content;
    LineEndMeaning(content);
    NoLine(content, cfg.maxEvents, cfg.maxBytes);
  }

  lemma TornHeadNext(s: System, a: Action, cfg: Config)
    requires Inv(s, cfg) && TornHead(s)
    ensures var s' := Next(s, a, cfg);
            TornHead(s') && s'.accepted == s.accepted
  {
    hide IndexOf, Take, Choose, Touch, Inv, DoSweep, DoEnqueue, DoWrite, ReadFails, AllEvents;
    TornHeadBlocks(s, cfg);
    if !a.Crash? {
      BlockedNext(s, a, cfg);
      TornHeadStays(s, a, cfg);
    }
  }

  lemma TornHeadStays(s: System, a: Action, cfg: Config)
    requires Inv(s, cfg) && TornHead(s) && Blocked(s, cfg) && !a.Crash?
    ensures var s' := Next(s, a, cfg);
            |s'.spool| >= 2 && s'.spool[0] == s.spool[0]
  {
    hide IndexOf, Take, Choose, Touch, Inv, Evolves, Prepare, Open, Tail, Gained, Keep, ParseAll, ReadFails;
    InvParts(s, cfg);
    var s' := Next(s, a, cfg);
    match a
    case Enqueue(line, t1, t2) => EnqueueEvolves(s, line, t1, t2, cfg); EvolvesHead(s.spool, s'.spool);
    case Write(k) => WriteEvolves(s, k, cfg); EvolvesHead(s.spool, s'.spool);
    case Sweep(gone) => TornHeadKept(s, gone, cfg);
    case _ =>
  }

  lemma EvolvesHead(before: Spool, after: Spool)
    requires Evolves(before, after) && |before| >= 2
    ensures |after| >= 2 && after[0] == before[0]
  {}

  lemma TornHeadKept(s: System, gone: set<nat>, cfg: Config)
    requires Inv(s, cfg) && TornHead(s)
    ensures var s' := DoSweep(s, gone);
            |s'.spool| >= 2 && s'.spool[0] == s.spool[0]
  {
    hide IndexOf, DiskOk, WriterOk, LastOk, Keep;
    if Sweepable(s.spool, s.reader.offsets, gone) {
      InvParts(s, cfg);
      assert Boundary(s.spool[0].content, OffsetOf(s.reader.offsets, s.spool[0].name));
      IndexOfSorted(s.spool, 0);
      IndexOfSorted(s.spool, |s.spool| - 1);
      KeepCut(s.spool, gone, 0);
      KeepOne(s.spool[0], gone);
      KeepAll([], gone);
      assert s.spool[..0] == [];
      KeepHas(s.spool[1..], gone, |s.spool| - 2);
    }
  }

  /** Nothing is ever delivered again from that directory, restarts included. */
  lemma {:induction false} TornHeadForever(s: System, actions: seq<Action>, cfg: Config)
    requires Inv(s, cfg) && TornHead(s)
    ensures TornHead(Exec(s, actions, cfg)) && Exec(s, actions, cfg).accepted == s.accepted
    decreases |actions|
  {
    hide Inv, Next, TornHead;
    if actions != [] {
      InvNext(s, actions[0], cfg);
      TornHeadNext(s, actions[0], cfg);
      TornHeadForever(Next(s, actions[0], cfg), actions[1..], cfg);
    }
  }

  /**
    How it comes about: the process dies after k bytes of its very first line. The next process creates a new
    segment; its first enqueue returns, but neither that event nor any later one is ever delivered.
  */
  lemma {:induction false} CrashTearsHead(line: Bytes, next: Bytes, k: nat, later: seq<Action>, cfg: Config)
    requires WriterLine(line) && cfg.parses(line) && WriterLine(next) && cfg.parses(next) && 0 < k <= |line|
    requires |line| < cfg.segmentMaxBytes && |next| < cfg.segmentMaxBytes
    ensures var s := AfterTear(line, next, k, cfg);
            && s == Exec(Init(), [Enqueue(line, 0, 0), Write(k), Crash, Enqueue(next, 1, 1), Write(|next| + 1)], cfg)
            && s.receipts == [Receipt(1, 0, next, true)]
            && Exec(s, later, cfg).accepted == []
  {
    hide Inv;
    var s := AfterTear(line, next, k, cfg);
    TearStates(line, next, k, cfg);
    assert NEWLINE !in line[..k];
    InvInit(cfg);
    InvExec(Init(), [Enqueue(line, 0, 0), Write(k), Crash, Enqueue(next, 1, 1), Write(|next| + 1)], cfg);
    TornHeadForever(s, later, cfg);
  }

  function AfterTear(line: Bytes, next: Bytes, k: nat, cfg: Config): System
    requires k <= |line|
  {
    System(1, [Segment(0, 0, line[..k]), Segment(1, 1, next + [NEWLINE])], [], 2,
           Writer(Some(1), |next| + 1), None, FRESH_READER, None, None, None,
           [Receipt(1, 0, next, true)], [], [], AllEvents([Segment(0, 0, line[..k])], cfg.parses)
               + Gained([], next, cfg.parses), false)
  }

  lemma {:induction false} TearStates(line: Bytes, next: Bytes, k: nat, cfg: Config)
    requires WriterLine(line) && cfg.parses(line) && WriterLine(next) && cfg.parses(next) && 0 < k <= |line|
    requires |line| < cfg.segmentMaxBytes && |next| < cfg.segmentMaxBytes
    ensures Exec(Init(), [Enqueue(line, 0, 0), Write(k), Crash, Enqueue(next, 1, 1), Write(|next| + 1)], cfg)
            == AfterTear(line, next, k, cfg)
  {
    hide Gained, AllEvents, WriterLine, Exec;
    var torn := Segment(0, 0, line[..k]);
    var s1 := Next(Init(), Enqueue(line, 0, 0), cfg);
    assert s1 == Init().(spool := [Segment(0, 0, [])], nextId := 1, writer := Writer(Some(0), 0),
                         job := Some(Job(line, line + [NEWLINE], 0, 0, [])));
    var s2 := Next(s1, Write(k), cfg);
    assert (line + [NEWLINE])[..k] == line[..k] && [] + line[..k] == line[..k];
    assert s2.spool == [torn];
    var s3 := Next(s2, Crash, cfg);
    assert s3 == Init().(spool := [torn], nextId := 1, stream := AllEvents([torn], cfg.parses));
    var s4 := Next(s3, Enqueue(next, 1, 1), cfg);
    SecondSegment(torn, Segment(1, 1, []));
    assert s4 == s3.(clock := 1, spool := [torn, Segment(1, 1, [])], nextId := 2, writer := Writer(Some(1), 0),
                     job := Some(Job(next, next + [NEWLINE], 1, 0, [])));
    var s5 := Next(s4, Write(|next| + 1), cfg);
    assert (next + [NEWLINE])[..|next| + 1] == next + [NEWLINE] && [] + (next + [NEWLINE]) == next + [NEWLINE];
    assert s5 == AfterTear(line, next, k, cfg);
    ExecFive(Init(), [Enqueue(line, 0, 0), Write(k), Crash, Enqueue(next, 1, 1), Write(|next| + 1)], cfg);
  }

  lemma SecondSegment(a: Segment, b: Segment)
    requires a.name != b.name
    ensures IndexOf([a], b.name) == 1 && IndexOf([a, b], b.name) == 1 && [a] + [b] == [a, b]
  {
    assert [a, b][1..] == [b];
    assert [a][1..] == [];
  }
}
