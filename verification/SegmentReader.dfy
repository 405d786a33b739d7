/**
  Reading lines from a segment file that the writer may be appending to: the byte loop of the
  queue reader, over a shared directory whose contents change between any two system calls.
*/
module SegmentReader {
  import opened Wrappers
  import opened Lines
  import opened Queue

  /**
    What the file system refuses during a call: reading the segment that was chosen, moving a poisoned segment away,
    deleting the files with the given names.
  */
  datatype Faults = Faults(read: bool, move: bool, stuck: set<nat>)

  /** The spool directory. Between any two operations of this process's reader the writer may run. */
  class Directory {
    var spool: Spool
    var bad: Spool  // segments moved out of the way
    var nextId: nat

    /** Any number of writer steps. */
    method Others()
      requires Sorted(spool)
      modifies this`spool
      ensures Evolves(old(spool), spool)
    {
      var later: Spool := *;
      if Evolves(spool, later) {
        spool := later;
      }
    }

    method Length(name: nat) returns (length: nat)
      ensures length == if Has(spool, name) then |spool[IndexOf(spool, name)].content| else 0
    {
      length := if Has(spool, name) then |spool[IndexOf(spool, name)].content| else 0;
    }

    /** Deletes a file, unless it is stuck. */
    method Delete(name: nat, stuck: set<nat>) returns (ok: bool)
      requires Has(spool, name)
      modifies this`spool
      ensures ok == (name !in stuck)
      ensures spool == if ok then Without(old(spool), IndexOf(old(spool), name)) else old(spool)
    {
      ok := name !in stuck;
      if ok {
        spool := Without(spool, IndexOf(spool, name));
      }
    }

    /** Renames a segment file to a name that no listing shows, unless that fails. */
    method MoveAway(name: nat, fails: bool) returns (ok: bool)
      requires Has(spool, name)
      modifies this`spool, this`bad
      ensures ok == !fails
      ensures var i := IndexOf(old(spool), name);
              && spool == (if ok then Without(old(spool), i) else old(spool))
              && bad == (if ok then old(bad) + [old(spool)[i]] else old(bad))
    {
      ok := !fails;
      if ok {
        var i := IndexOf(spool, name);
        bad := bad + [spool[i]];
        spool := Without(spool, i);
      }
    }

    /** Creates an empty file; with `mustBeNew` an existing file is an error. */
    method Create(name: nat, mustBeNew: bool) returns (ok: bool)
      modifies this`spool, this`nextId
      ensures ok == !(mustBeNew && Has(old(spool), name))
      ensures if Has(old(spool), name) then spool == old(spool) && nextId == old(nextId)
              else spool == old(spool) + [Segment(name, old(nextId), [])] && nextId == old(nextId) + 1
    {
      if Has(spool, name) {
        return !mustBeNew;
      }
      spool := spool + [Segment(name, nextId, [])];
      nextId := nextId + 1;
      return true;
    }

    /** Appends to a file; a write for which there is not enough room fails and leaves a part of the bytes behind. */
    method Append(name: nat, bytes: Bytes, room: nat) returns (ok: bool, ghost written: nat)
      requires Has(spool, name)
      modifies this`spool
      ensures ok == (room >= |bytes|) && written == if ok then |bytes| else room
      ensures spool == AppendTo(old(spool), name, bytes[..written])
    {
      ok := room >= |bytes|;
      var n := if ok then |bytes| else room;
      spool := AppendTo(spool, name, bytes[..n]);
      written := n;
    }

    /** Reads some bytes of an open file into `buffer`; 0 only at the end of the file. Reads may be short. */
    method ReadFile(name: nat, pos: nat, buffer: array<byte>) returns (read: nat)
      requires Has(spool, name) && buffer.Length > 0
      modifies buffer
      ensures var content := spool[IndexOf(spool, name)].content;
              && (read == 0 <==> pos >= |content|)
              && read <= buffer.Length
              && (read > 0 ==> pos + read <= |content| && buffer[..read] == content[pos..pos + read])
    {
      var content := spool[IndexOf(spool, name)].content;
      if pos >= |content| {
        return 0;
      }
      read := *;
      if !(0 < read <= buffer.Length && pos + read <= |content|) {
        read := 1;
      }
      forall k | 0 <= k < read {
        buffer[k] := content[pos + k];
      }
    }
  }

  const BUFFER_SIZE := 64 * 1024

  /** Byte-level acceptance of a line; the decoded text is kept as its bytes. */
  method TryDecodeJsonLine(raw: Bytes) returns (ok: bool, line: Bytes)
    ensures Decode(raw) == if ok then Some(line) else None
  {
    line := [];
    if raw == [] {
      return false, line;
    }
    var i := 0;
    if |raw| >= 3 && raw[0] == 0xEF && raw[1] == 0xBB && raw[2] == 0xBF {
      i := 3;
    }
    ghost var start: nat := i;
    while i < |raw|
      invariant start <= i <= |raw|
      invariant SkipBlanks(raw, start) == SkipBlanks(raw, i)
    {
      var b := raw[i];
      if b == SPACE || b == TAB {
        i := i + 1;
        continue;
      }
      break;
    }
    if i >= |raw| {
      return false, line;
    }
    var first := raw[i];
    if first != OPEN_BRACE && first != OPEN_BRACKET {
      return false, line;
    }
    return true, raw[i..];
  }

  /** `got` has been scanned: complete lines `done` that gave `texts`, then an unfinished `line`. */
  ghost predicate Scanned(got: Bytes, done: Bytes, line: Bytes, texts: seq<Bytes>, maxEvents: int, maxBytes: int) {
    && got == done + line
    && Complete(done)
    && NEWLINE !in line
    && texts == Texts(done)
    && Fits(done, maxEvents, maxBytes)
    && |texts| <= maxEvents
    && |got| <= maxBytes
  }

  lemma ScanByte(got: Bytes, done: Bytes, line: Bytes, texts: seq<Bytes>, b: byte, maxEvents: int, maxBytes: int)
    requires Scanned(got, done, line, texts, maxEvents, maxBytes)
    requires |texts| < maxEvents && |got| < maxBytes
    ensures b != NEWLINE ==> Scanned(got + [b], done, line + [b], texts, maxEvents, maxBytes)
    ensures b == NEWLINE ==>
              Scanned(got + [b], done + line + [b], [], texts + LineText(line), maxEvents, maxBytes)
  {
    hide LineText, LineEnd, Texts, Fits;
    if b == NEWLINE {
      FitsSnoc(done, line, maxEvents, maxBytes);
      assert |LineText(line)| <= 1;
      assert got + [b] == done + line + [b] + [];
    } else {
      assert got + [b] == done + (line + [b]);
    }
  }

  /** Stopping after `got` is what `Take` does, whatever follows (nothing follows at the end of the file). */
  lemma {:induction false} ScanStops(got: Bytes, done: Bytes, line: Bytes, texts: seq<Bytes>, rest: Bytes,
                                     maxEvents: int, maxBytes: int)
    requires Scanned(got, done, line, texts, maxEvents, maxBytes)
    requires |texts| >= maxEvents || |got| >= maxBytes || rest == []
    ensures |line| <= |got|
    ensures Take(got + rest, maxEvents, maxBytes) ==
            ReadResult(texts, |got| - |line|, line + rest == [] && |texts| < maxEvents && |got| < maxBytes)
  {
    hide LineText, LineEnd, Texts, Fits, Take;
    assert got + rest == done + (line + rest);
    TakeAfter(done, line + rest, maxEvents, maxBytes);
    StopsInLine(line, rest, maxEvents - |texts|, maxBytes - |done|);
  }

  lemma {:induction false} StopsInLine(line: Bytes, rest: Bytes, maxEvents: int, maxBytes: int)
    requires NEWLINE !in line
    requires maxEvents <= 0 || |line| >= maxBytes || rest == []
    ensures Take(line + rest, maxEvents, maxBytes) ==
            ReadResult([], 0, line + rest == [] && maxEvents > 0 && maxBytes > 0)
  {
    hide LineText, LineEnd, Texts, Fits;
    LineEndMeaning(line);
    LineEndOfConcat(line, rest);
    if rest == [] {
      assert line + rest == line;
    }
  }

  /** The offset a read starts at, kept within the file. */
  function StartOf(offset: int, length: nat): nat {
    if offset < 0 then 0 else if offset > length then length else offset
  }

  lemma {:induction false} NoRoom(s: Bytes, maxEvents: int, maxBytes: int)
    requires maxEvents <= 0 || maxBytes <= 0
    ensures Take(s, maxEvents, maxBytes) == ReadResult([], 0, false)
  {}

  /**
    The byte loop. However the reads are cut into chunks and whatever the writer appends meanwhile, the
    result is that of one atomic read of the file as it was at a single moment of the call, `snap`.
  */
  method ReadLinesFromOffset(dir: Directory, name: nat, startOffset: int, maxEvents: int, maxBytes: int)
    returns (texts: seq<Bytes>, newOffset: int, reachedEof: bool, ghost snap: Spool)
    requires Sorted(dir.spool) && Has(dir.spool, name)
    modifies dir`spool
    ensures Evolves(old(dir.spool), snap) && Evolves(snap, dir.spool)
    ensures IndexOf(snap, name) == IndexOf(old(dir.spool), name) < |snap|
    ensures var i := IndexOf(snap, name);
            var start := StartOf(startOffset, |old(dir.spool)[i].content|);
            start <= |snap[i].content| &&
            var r := Take(snap[i].content[start..], maxEvents, maxBytes);
            && texts == r.texts
            && reachedEof == r.eof
            && newOffset == if maxEvents <= 0 || maxBytes <= 0 then startOffset else start + r.consumed
  {
    hide LineText, LineEnd, Texts, Fits, Take, Decode, Scanned, IndexOf, Evolves, Sorted;
    EvolvesReflexive(dir.spool);
    texts, newOffset, reachedEof, snap := [], startOffset, false, dir.spool;
    ghost var i := IndexOf(dir.spool, name);
    if maxEvents <= 0 || maxBytes <= 0 {
      NoRoom(snap[i].content[StartOf(startOffset, |snap[i].content|)..], maxEvents, maxBytes);
      return;
    }
    var start := StartOf(startOffset, |dir.spool[IndexOf(dir.spool, name)].content|);

    var buffer := new byte[BUFFER_SIZE];
    var totalBytes := 0;
    var currentOffset := start;
    var lineBytes: Bytes := [];
    ghost var done: Bytes := [];
    ghost var got: Bytes := [];  // the bytes scanned so far
    ScanNothing(maxEvents, maxBytes);

    while |texts| < maxEvents && totalBytes < maxBytes
      invariant fresh(buffer) && buffer.Length == BUFFER_SIZE
      invariant Evolves(old(dir.spool), dir.spool) && Sorted(dir.spool)
      invariant Has(dir.spool, name) && IndexOf(dir.spool, name) == i
      invariant start <= currentOffset <= |dir.spool[i].content| && dir.spool[i].content[start..currentOffset] == got
      invariant totalBytes == |got|
      invariant Scanned(got, done, lineBytes, texts, maxEvents, maxBytes)
      decreases maxBytes - totalBytes
    {
      label BeforeOthers:
      dir.Others();
      EvolvesAt(old@BeforeOthers(dir.spool), dir.spool, name);
      EvolvesTransitive(old(dir.spool), old@BeforeOthers(dir.spool), dir.spool);
      ghost var content := dir.spool[i].content;
      assert content[start..currentOffset] == got;
      var read := dir.ReadFile(name, currentOffset, buffer);
      if read == 0 {
        ScanStops(got, done, lineBytes, texts, [], maxEvents, maxBytes);
        assert content[start..] == got + [];
        snap := dir.spool;
        EvolvesReflexive(snap);
        if |lineBytes| > 0 {
          currentOffset := currentOffset - |lineBytes|;
          return texts, currentOffset, false, snap;
        }
        return texts, currentOffset, true, snap;
      }
      ghost var used: nat;
      texts, lineBytes, totalBytes, used, done :=
        ScanBuffer(buffer, read, texts, lineBytes, totalBytes, maxEvents, maxBytes, got, done);
      Join(content, start, currentOffset, buffer[..read], used);
      got := got + buffer[..read][..used];
      currentOffset := start + totalBytes;
    }

    snap := dir.spool;
    EvolvesReflexive(snap);
    assert snap[i].content[start..] == got + snap[i].content[currentOffset..];
    ScanStops(got, done, lineBytes, texts, snap[i].content[currentOffset..], maxEvents, maxBytes);
    if |lineBytes| > 0 {
      currentOffset := currentOffset - |lineBytes|;
    }
    newOffset := currentOffset;
  }

  lemma Join(content: Bytes, start: nat, mid: nat, chunk: Bytes, used: nat)
    requires start <= mid && mid + |chunk| <= |content| && used <= |chunk|
    requires chunk == content[mid..mid + |chunk|]
    ensures content[start..mid + used] == content[start..mid] + chunk[..used]
  {}

  /** The bytes of one filled buffer, until it is used up or a limit is hit, even in the middle of a line. */
  method ScanBuffer(buffer: array<byte>, read: nat, texts0: seq<Bytes>, lineBytes0: Bytes, totalBytes0: int,
                    maxEvents: int, maxBytes: int, ghost got: Bytes, ghost done0: Bytes)
    returns (texts: seq<Bytes>, lineBytes: Bytes, totalBytes: int, ghost used: nat, ghost done: Bytes)
    requires 0 < read <= buffer.Length
    requires Scanned(got, done0, lineBytes0, texts0, maxEvents, maxBytes) && totalBytes0 == |got|
    requires |texts0| < maxEvents && totalBytes0 < maxBytes
    ensures 0 < used <= read && totalBytes == |got| + used
    ensures Scanned(got + buffer[..read][..used], done, lineBytes, texts, maxEvents, maxBytes)
    ensures used == read || |texts| >= maxEvents || totalBytes >= maxBytes
    ensures 0 <= totalBytes - totalBytes0 <= buffer.Length
    ensures texts == Texts(got + buffer[..totalBytes - totalBytes0])
  {
    hide LineText, Scanned;
    texts, lineBytes, totalBytes, used, done := texts0, lineBytes0, totalBytes0, 0, done0;
    var bufIndex := 0;
    assert got + buffer[..read][..0] == got;
    while bufIndex < read
      invariant 0 <= bufIndex == used <= read && totalBytes == |got| + used
      invariant used == 0 ==> |texts| < maxEvents && totalBytes < maxBytes
      invariant Scanned(got + buffer[..read][..used], done, lineBytes, texts, maxEvents, maxBytes)
    {
      if |texts| >= maxEvents || totalBytes >= maxBytes {
        break;
      }
      var b := buffer[bufIndex];
      ghost var seen := got + buffer[..read][..used];
      ScanByte(seen, done, lineBytes, texts, b, maxEvents, maxBytes);
      bufIndex := bufIndex + 1;
      totalBytes := totalBytes + 1;
      used := used + 1;
      assert got + buffer[..read][..used] == seen + [b];
      if b == NEWLINE {
        done := done + lineBytes + [b];
        texts := AddLine(texts, lineBytes);
        lineBytes := [];
        if |texts| >= maxEvents || totalBytes >= maxBytes {
          break;
        }
      } else {
        lineBytes := lineBytes + [b];
      }
    }
    ScannedTexts(got + buffer[..read][..used], done, lineBytes, texts, maxEvents, maxBytes);
    assert buffer[..read][..used] == buffer[..used];
  }

  /** An unfinished line adds no text. */
  lemma {:induction false} ScannedTexts(got: Bytes, done: Bytes, line: Bytes, texts: seq<Bytes>, maxEvents: int,
                                        maxBytes: int)
    requires Scanned(got, done, line, texts, maxEvents, maxBytes)
    ensures texts == Texts(got)
  {
    hide LineText, LineEnd, Texts, Fits;
    TextsOfConcat(done, line);
    LineEndMeaning(line);
    NoLine(line, 0, 0);
    assert texts + [] == texts;
  }

  /** The end of a line: trim a carriage return, and keep the text if it is accepted. */
  method AddLine(texts: seq<Bytes>, lineBytes: Bytes) returns (more: seq<Bytes>)
    ensures more == texts + LineText(lineBytes)
  {
    hide SkipBlanks;
    var raw := lineBytes;
    if |raw| > 0 && raw[|raw| - 1] == CARRIAGE_RETURN {
      raw := raw[..|raw| - 1];
    }
    var ok, line := TryDecodeJsonLine(raw);
    more := if ok then texts + [line] else texts;
  }

  lemma ScanNothing(maxEvents: nat, maxBytes: nat)
    ensures Scanned([], [], [], [], maxEvents, maxBytes)
  {
    NoTexts();
  }
}
