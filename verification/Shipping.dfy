/**
  What a pass of the shipper's loop does, said of the bytes on disk and the statuses in the answer: when a line is
  read, when its batch is committed, and when nothing moves.
*/
module Shipping {
  import opened Wrappers
  import opened Lines
  import opened Queue
  import opened SegmentReader
  import opened QueueReader
  import opened Shipper

  /** The server asks for the batch again: no usable answer, or an operation with status 429 or 500 and above. */
  predicate AsksAgain(answer: Answer) {
    || answer.Failed? || !answer.httpOk || !answer.body.Json?
    || (answer.body.errors && exists op :: op in AllOps(answer.body.items) && (op.status == 429 || op.status >= 500))
  }

  /** The oldest unread segment of the directory, as the pass saw it, goes on with this line. */
  predicate NextLine(t: PassTrace, line: Bytes) {
    var i := Choose(t.snap, t.start.offsets);
    && i < |t.snap| && WriterLine(line)
    && line + [NEWLINE] <= UnreadBytes(t.snap, t.start.offsets, i)
  }

  lemma {:induction false} FirstText(s: Bytes, line: Bytes, maxEvents: int, maxBytes: int)
    requires WriterLine(line) && line + [NEWLINE] <= s && maxEvents > 0 && |line| < maxBytes
    ensures var r := Take(s, maxEvents, maxBytes); r.texts != [] && r.texts[0] == line && r.consumed > |line|
  {
    hide Take, LineEnd, LineText, Texts, Fits;
    var rest := s[|line| + 1..];
    assert s == line + [NEWLINE] + rest;
    LineEndOfLine(line, rest);
    WriterLineText(line);
    FirstLine(s, maxEvents, maxBytes);
  }

  /** If nothing is wrong with the file, a parseable line that fits a read is the first event of the batch. */
  lemma {:induction false} ReadyLineIsRead(
    t: PassTrace, line: Bytes, maxEvents: int, maxBytes: int, parses: Bytes -> bool)
    requires PassOk(t, maxEvents, maxBytes, parses) && !t.faults.read
    requires NextLine(t, line) && parses(line) && maxEvents > 0 && |line| < maxBytes
    ensures t.batch != [] && t.batch[0] == line
    ensures var i := Choose(t.snap, t.start.offsets);
            var r := Take(UnreadBytes(t.snap, t.start.offsets, i), maxEvents, maxBytes);
            r.texts != [] && r.texts[0] == line && r.consumed > |line|
  {
    hide Take, Choose, Touch, NoteStreak, Evolves, MovedAway, WasAcknowledged, Taken, WriterLine;
    FirstText(UnreadBytes(t.snap, t.start.offsets, Choose(t.snap, t.start.offsets)), line, maxEvents, maxBytes);
  }

  /** The pass got a batch out of a file that is not poisoned. */
  predicate Clean(t: PassTrace, maxEvents: int, maxBytes: int, parses: Bytes -> bool) {
    Queue.Read(t.start, t.snap, maxEvents, maxBytes, parses).poisoned.None?
  }

  /** When the server asks again, no offset moves and no file goes: the next pass finds the same bytes unread. */
  lemma {:induction false} AskedAgain(t: PassTrace, maxEvents: int, maxBytes: int, parses: Bytes -> bool)
    requires PassOk(t, maxEvents, maxBytes, parses) && Clean(t, maxEvents, maxBytes, parses) && AsksAgain(t.answer)
    ensures t.verdict != Acked && Evolves(t.startSpool, t.endSpool)
    ensures forall n :: OffsetOf(t.end.offsets, n) == OffsetOf(t.start.offsets, n)
  {
    hide Take, Choose, ParseAll, Evolves, NoteStreak, AllOps;
    EvolvesTransitive(t.startSpool, t.snap, t.readSpool);
  }

  /** When it does not, the offset stands behind the line that was read, unless its file is gone as well. */
  lemma {:induction false} Taking(t: PassTrace, line: Bytes, maxEvents: int, maxBytes: int, parses: Bytes -> bool)
    requires PassOk(t, maxEvents, maxBytes, parses) && Clean(t, maxEvents, maxBytes, parses) && !AsksAgain(t.answer)
    requires !t.faults.read && NextLine(t, line) && parses(line) && maxEvents > 0 && |line| < maxBytes
    ensures t.verdict == Acked
    ensures var name := t.snap[Choose(t.snap, t.start.offsets)].name;
            name in t.gone || OffsetOf(t.end.offsets, name) > OffsetOf(t.start.offsets, name) + |line|
  {
    hide Take, Choose, ParseAll, Touch, NoteStreak, Evolves, AllOps, WriterLine, Keep, Cleared;
    ReadyLineIsRead(t, line, maxEvents, maxBytes, parses);
  }

  /** All old files acknowledged to the last byte go, except those that are stuck. */
  lemma SweptAll(t: PassTrace, maxEvents: int, maxBytes: int, parses: Bytes -> bool, i: nat)
    requires PassOk(t, maxEvents, maxBytes, parses) && t.verdict.Acked? && Commits(t.read, |t.batch|)
    requires i < |t.listing| - 1 && t.listing[i].name !in t.faults.stuck && t.listing[i].content != []
    requires |t.listing[i].content| <= OffsetOf(Commit(t.read, |t.batch|).offsets, t.listing[i].name)
    ensures t.listing[i].name in t.gone
  {
    hide WasRead, Evolves, Keep;
  }
}
