/**
  The spool directory as values: segment files in name order, how a running writer may change
  them, and the steps of the queue reader and writer as functions. The classes of
  `FileQueueReader` and `FileQueueWriter` are proved to take exactly these steps.
*/
module Queue {
  import opened Wrappers
  import opened Lines

  /** A segment file. Names are creation times; `id` tells files apart that bear one name in turn. */
  datatype Segment = Segment(name: nat, id: nat, content: Bytes)

  /** The segment files of the directory, oldest first (a listing is always sorted before use). */
  type Spool = seq<Segment>

  predicate Sorted(spool: Spool) {
    forall i, j :: 0 <= i < j < |spool| ==> spool[i].name < spool[j].name
  }

  function IndexOf(spool: Spool, name: nat): (i: nat)
    ensures i <= |spool|
    ensures i < |spool| ==> spool[i].name == name
    ensures forall j :: 0 <= j < i ==> spool[j].name != name
  {
    if spool == [] || spool[0].name == name then 0 else 1 + IndexOf(spool[1..], name)
  }

  predicate Has(spool: Spool, name: nat) {
    IndexOf(spool, name) < |spool|
  }

  lemma {:induction false} IndexOfSorted(spool: Spool, i: nat)
    requires Sorted(spool) && i < |spool|
    ensures IndexOf(spool, spool[i].name) == i
  {
    var j := IndexOf(spool, spool[i].name);
    assert !(j < i) && !(i < j);
  }

  /**
    What a concurrent writer may do to the directory: let the newest segment grow and add newer
    segments. Everything else stays as it is.
  */
  predicate Evolves(before: Spool, after: Spool) {
    && Sorted(after)
    && |before| <= |after|
    && (forall i :: 0 <= i < |before| ==>
          after[i].name == before[i].name && after[i].id == before[i].id && before[i].content <= after[i].content)
    && (forall i :: 0 <= i < |before| - 1 ==> after[i] == before[i])
  }

  lemma EvolvesReflexive(spool: Spool)
    requires Sorted(spool)
    ensures Evolves(spool, spool)
  {}

  /** A segment keeps its place and its bytes while the writer runs. */
  lemma {:induction false} EvolvesAt(before: Spool, after: Spool, name: nat)
    requires Sorted(before) && Evolves(before, after) && Has(before, name)
    ensures Sorted(after) && Has(after, name) && IndexOf(after, name) == IndexOf(before, name)
    ensures before[IndexOf(before, name)].content <= after[IndexOf(before, name)].content
  {
    IndexOfSorted(after, IndexOf(before, name));
  }

  lemma EvolvesTransitive(a: Spool, b: Spool, c: Spool)
    requires Evolves(a, b) && Evolves(b, c)
    ensures Evolves(a, c)
  {
    forall i | 0 <= i < |a|
      ensures a[i].content <= c[i].content
    {
      assert a[i].content <= b[i].content <= c[i].content;
    }
  }

  // ---------------------------------------------------------------- reader

  type Offsets = map<nat, nat>

  function OffsetOf(offsets: Offsets, name: nat): nat {
    if name in offsets then offsets[name] else 0
  }

  predicate Unread(segment: Segment, offsets: Offsets) {
    |segment.content| > OffsetOf(offsets, segment.name)
  }

  /** The oldest segment with unread bytes; |spool| if there is none. */
  function Choose(spool: Spool, offsets: Offsets): (i: nat)
    ensures i <= |spool|
    ensures i < |spool| ==> Unread(spool[i], offsets)
    ensures forall j :: 0 <= j < i ==> !Unread(spool[j], offsets)
  {
    if spool == [] || Unread(spool[0], offsets) then 0 else 1 + Choose(spool[1..], offsets)
  }

  /** Looking at a segment for the first time notes offset 0 for it. */
  function Touch(offsets: Offsets, spool: Spool): (touched: Offsets)
    ensures forall n :: OffsetOf(touched, n) == OffsetOf(offsets, n)
    decreases |spool|
  {
    if spool == [] then offsets
    else
      var n := spool[0].name;
      Touch(if n in offsets then offsets else offsets[n := 0], spool[1..])
  }

  const QUARANTINE_THRESHOLD := 20

  /** Parsing the texts of one read: the events, the failure streak afterwards, and whether it got too long. */
  datatype Parsed = Parsed(events: seq<Bytes>, streak: nat, poisoned: bool)

  function ParseAll(texts: seq<Bytes>, streak: nat, parses: Bytes -> bool): Parsed {
    if texts == [] then Parsed([], streak, false)
    else if parses(texts[0]) then
      var rest := ParseAll(texts[1..], 0, parses);
      rest.(events := [texts[0]] + rest.events)
    else if streak + 1 >= QUARANTINE_THRESHOLD then Parsed([], streak + 1, true)
    else ParseAll(texts[1..], streak + 1, parses)
  }

  /** The events among some texts. */
  function Parseable(texts: seq<Bytes>, parses: Bytes -> bool): seq<Bytes> {
    if texts == [] then []
    else (if parses(texts[0]) then [texts[0]] else []) + Parseable(texts[1..], parses)
  }

  lemma {:induction false} ParseAllEvents(texts: seq<Bytes>, streak: nat, parses: Bytes -> bool)
    ensures var p := ParseAll(texts, streak, parses);
            && p.events <= Parseable(texts, parses)
            && (!p.poisoned ==> p.events == Parseable(texts, parses))
            && (p.poisoned ==> p.streak >= QUARANTINE_THRESHOLD)
  {
    if texts != [] {
      ParseAllEvents(texts[1..], if parses(texts[0]) then 0 else streak + 1, parses);
    }
  }

  /** Texts i to j all fail to parse, and with those that failed before the first text they are twenty at least. */
  predicate TwentyFail(texts: seq<Bytes>, streak: nat, i: int, j: int, parses: Bytes -> bool) {
    && 0 <= i <= j < |texts|
    && (forall k :: i <= k <= j ==> !parses(texts[k]))
    && j + 1 - i + (if i == 0 then streak else 0) >= 20
  }

  /** A read gives up on a segment exactly if twenty texts in a row fail to parse, earlier reads counted in. */
  lemma {:induction false} PoisonExactly(texts: seq<Bytes>, streak: nat, parses: Bytes -> bool)
    ensures ParseAll(texts, streak, parses).poisoned <==> exists i, j :: TwentyFail(texts, streak, i, j, parses)
  {
    if texts != [] {
      var rest, more := texts[1..], if parses(texts[0]) then 0 else streak + 1;
      PoisonExactly(rest, more, parses);
      assert forall k :: 0 <= k < |rest| ==> rest[k] == texts[k + 1];
      if i, j :| TwentyFail(texts, streak, i, j, parses) && j > 0 {
        assert TwentyFail(rest, more, if i == 0 then 0 else i - 1, j - 1, parses);
      }
      if i, j :| TwentyFail(rest, more, i, j, parses) {
        assert TwentyFail(texts, streak, if i == 0 && !parses(texts[0]) then 0 else i + 1, j + 1, parses);
      }
      if !parses(texts[0]) && streak + 1 >= QUARANTINE_THRESHOLD {
        assert TwentyFail(texts, streak, 0, 0, parses);
      }
    }
  }

  datatype LastBatch = LastBatch(name: nat, count: nat, newOffset: nat, eof: bool)

  /** The reader's memory. */
  datatype Reader = Reader(offsets: Offsets, failures: map<nat, nat>, last: Option<LastBatch>)

  const FRESH_READER := Reader(map[], map[], None)

  function NoteStreak(failures: map<nat, nat>, name: nat, streak: nat): map<nat, nat> {
    if streak == 0 then failures - {name} else failures[name := streak]
  }

  /** The bytes of segment `i` that a read looks at. */
  function UnreadBytes(spool: Spool, offsets: Offsets, i: nat): Bytes
    requires i < |spool| && Unread(spool[i], offsets)
  {
    spool[i].content[OffsetOf(offsets, spool[i].name)..]
  }

  /** One call of ReadBatchAsync on one snapshot of the directory, up to moving a poisoned segment away. */
  datatype ReadStep = ReadStep(reader: Reader, events: seq<Bytes>, poisoned: Option<nat>)

  function Read(reader: Reader, spool: Spool, maxEvents: int, maxBytes: int, parses: Bytes -> bool): ReadStep {
    var i := Choose(spool, reader.offsets);
    if i == |spool| then
      ReadStep(reader.(offsets := Touch(reader.offsets, spool), last := None), [], None)
    else
      var name := spool[i].name;
      var r := Take(UnreadBytes(spool, reader.offsets, i), maxEvents, maxBytes);
      var p := ParseAll(r.texts, OffsetOf(reader.failures, name), parses);
      var last := LastBatch(name, |p.events|, OffsetOf(reader.offsets, name) + r.consumed, r.eof);
      ReadStep(
        Reader(Touch(reader.offsets, spool[..i + 1]),
               if r.texts == [] then reader.failures else NoteStreak(reader.failures, name, p.streak),
               if p.poisoned then None else Some(last)),
        p.events,
        if p.poisoned then Some(name) else None)
  }

  /** What the reader forgets once a poisoned segment has been moved away. */
  function Forget(reader: Reader, name: nat): Reader {
    Reader(reader.offsets - {name}, reader.failures - {name},
           if reader.last.Some? && reader.last.value.name == name then None else reader.last)
  }

  predicate Commits(reader: Reader, count: int) {
    reader.last.Some? && count > 0 && count == reader.last.value.count
  }

  /** AcknowledgeAsync(count), before old segments are deleted. */
  function Commit(reader: Reader, count: int): Reader {
    if Commits(reader, count) then
      reader.(offsets := reader.offsets[reader.last.value.name := reader.last.value.newOffset], last := None)
    else
      reader
  }

  /** A batch is committed once: neither it nor any other count can be acknowledged again before the next read. */
  lemma CommitsOnce(reader: Reader, count: int, again: int)
    requires Commits(reader, count)
    ensures !Commits(Commit(reader, count), again)
    ensures OffsetOf(Commit(reader, count).offsets, reader.last.value.name) == reader.last.value.newOffset
  {}

  /** A read that fails with an I/O error after a segment was chosen leaves no batch behind. */
  function ReadFails(reader: Reader, spool: Spool): Reader {
    var i := Choose(spool, reader.offsets);
    reader.(offsets := Touch(reader.offsets, if i < |spool| then spool[..i + 1] else spool), last := None)
  }

  // ---------------------------------------------------------------- removing segments

  function Without(spool: Spool, i: nat): Spool
    requires i < |spool|
  {
    spool[..i] + spool[i + 1..]
  }

  lemma EvolvesWithout(before: Spool, after: Spool, i: nat)
    requires Sorted(before) && Evolves(before, after) && i < |before|
    ensures Sorted(Without(before, i)) && Evolves(Without(before, i), Without(after, i))
  {
    WithoutSorted(before, i);
    WithoutSorted(after, i);
  }

  lemma WithoutSorted(spool: Spool, i: nat)
    requires Sorted(spool) && i < |spool|
    ensures Sorted(Without(spool, i))
    ensures |Without(spool, i)| == |spool| - 1
    ensures forall j :: 0 <= j < |spool| - 1 ==> Without(spool, i)[j] == spool[if j < i then j else j + 1]
  {}

  /** An old segment all of whose bytes have been acknowledged. */
  predicate Deletable(spool: Spool, i: nat, offsets: Offsets) {
    && i < |spool| - 1
    && 0 < |spool[i].content| <= OffsetOf(offsets, spool[i].name)
  }

  /** Old segments that may go, and what the reader remembers when they are gone. */
  predicate Sweepable(spool: Spool, offsets: Offsets, gone: set<nat>) {
    forall n :: n in gone ==> Deletable(spool, IndexOf(spool, n), offsets)
  }

  /** The names of all old segments that may go, of the first n of a listing, but for those that are stuck. */
  function Cleared(spool: Spool, n: nat, offsets: Offsets, stuck: set<nat>): set<nat>
    requires n <= |spool|
  {
    set i | 0 <= i < n && Deletable(spool, i, offsets) && spool[i].name !in stuck :: spool[i].name
  }

  lemma {:induction false} ClearedSweepable(spool: Spool, n: nat, offsets: Offsets, stuck: set<nat>)
    requires Sorted(spool) && n <= |spool|
    ensures Sweepable(spool, offsets, Cleared(spool, n, offsets, stuck))
    ensures forall name :: name in Cleared(spool, n, offsets, stuck) ==> IndexOf(spool, name) < n
  {
    forall i | 0 <= i < n && Deletable(spool, i, offsets)
      ensures IndexOf(spool, spool[i].name) == i
    {
      IndexOfSorted(spool, i);
    }
  }

  lemma ClearedMore(spool: Spool, n: nat, offsets: Offsets, stuck: set<nat>)
    requires n < |spool|
    ensures Cleared(spool, n + 1, offsets, stuck) ==
            Cleared(spool, n, offsets, stuck) +
            if Deletable(spool, n, offsets) && spool[n].name !in stuck then {spool[n].name} else {}
  {}

  lemma ClearedNone(spool: Spool, offsets: Offsets, stuck: set<nat>)
    ensures Cleared(spool, 0, offsets, stuck) == {}
  {}

  function Swept(reader: Reader, gone: set<nat>): Reader {
    reader.(offsets := reader.offsets - gone, failures := reader.failures - gone)
  }

  /** The directory without the segments named in `gone`. */
  function Keep(spool: Spool, gone: set<nat>): Spool {
    if spool == [] then []
    else (if spool[0].name in gone then [] else [spool[0]]) + Keep(spool[1..], gone)
  }

  lemma {:induction false} KeepOfConcat(a: Spool, b: Spool, gone: set<nat>)
    ensures Keep(a + b, gone) == Keep(a, gone) + Keep(b, gone)
  {
    if a == [] {
      assert a + b == b;
    } else {
      assert (a + b)[1..] == a[1..] + b;
      KeepOfConcat(a[1..], b, gone);
    }
  }

  lemma {:induction false} KeepAll(spool: Spool, gone: set<nat>)
    requires forall i :: 0 <= i < |spool| ==> spool[i].name !in gone
    ensures Keep(spool, gone) == spool
  {
    if spool != [] {
      KeepAll(spool[1..], gone);
    }
  }

  /** What is kept is still sorted, and nothing but kept segments. */
  lemma {:induction false} KeepSorted(spool: Spool, gone: set<nat>)
    requires Sorted(spool)
    ensures Sorted(Keep(spool, gone))
    ensures forall s :: s in Keep(spool, gone) <==> s in spool && s.name !in gone
  {
    if spool != [] {
      KeepSorted(spool[1..], gone);
      var rest := Keep(spool[1..], gone);
      assert spool == [spool[0]] + spool[1..];
      if spool[0].name !in gone {
        forall s | s in rest
          ensures spool[0].name < s.name
        {
          assert s in spool[1..];
        }
        SortedCons(spool[0], rest);
      }
    }
  }

  lemma SortedCons(s: Segment, rest: Spool)
    requires Sorted(rest) && forall r :: r in rest ==> s.name < r.name
    ensures Sorted([s] + rest)
  {}

  /** Removing one more segment. */
  lemma {:induction false} KeepWithout(spool: Spool, gone: set<nat>, i: nat)
    requires Sorted(spool) && i < |spool| && spool[i].name !in gone
    ensures var kept := Keep(spool, gone);
            var k := |Keep(spool[..i], gone)|;
            && k < |kept| && kept[k] == spool[i]
            && (i < |spool| - 1 && spool[|spool| - 1].name !in gone ==> k < |kept| - 1)
            && Keep(spool, gone + {spool[i].name}) == Without(kept, k)
  {
    hide Keep, Sorted;
    var a, b, one := spool[..i], spool[i + 1..], [spool[i]];
    var name := spool[i].name;
    KeepCut(spool, gone, i);
    KeepCut(spool, gone + {name}, i);
    KeepOne(spool[i], gone);
    KeepOne(spool[i], gone + {name});
    SortedNames(spool, i);
    KeepMore(a, gone, name);
    KeepMore(b, gone, name);
    if i < |spool| - 1 && spool[|spool| - 1].name !in gone {
      KeepHas(b, gone, |b| - 1);
    }
  }

  lemma SortedNames(spool: Spool, i: nat)
    requires Sorted(spool) && i < |spool|
    ensures forall s :: s in spool[..i] ==> s.name != spool[i].name
    ensures forall s :: s in spool[i + 1..] ==> s.name != spool[i].name
  {}

  lemma {:induction false} KeepOne(segment: Segment, gone: set<nat>)
    ensures Keep([segment], gone) == if segment.name in gone then [] else [segment]
  {}

  lemma {:induction false} KeepCut(spool: Spool, gone: set<nat>, i: nat)
    requires i < |spool|
    ensures Keep(spool, gone) == Keep(spool[..i], gone) + Keep([spool[i]], gone) + Keep(spool[i + 1..], gone)
  {
    hide Keep;
    var a, b, one := spool[..i], spool[i + 1..], [spool[i]];
    assert spool == a + (one + b);
    KeepOfConcat(a, one + b, gone);
    KeepOfConcat(one, b, gone);
  }

  lemma {:induction false} KeepHas(spool: Spool, gone: set<nat>, i: nat)
    requires i < |spool| && spool[i].name !in gone
    ensures spool[i] in Keep(spool, gone)
  {
    if i > 0 {
      KeepHas(spool[1..], gone, i - 1);
    }
  }

  lemma {:induction false} KeepMore(spool: Spool, gone: set<nat>, name: nat)
    requires forall s :: s in spool ==> s.name != name
    ensures Keep(spool, gone + {name}) == Keep(spool, gone)
  {
    if spool != [] {
      assert spool[0] in spool;
      KeepMore(spool[1..], gone, name);
    }
  }

  // ---------------------------------------------------------------- writer

  /** The writer's memory: the segment it appends to and how many bytes it believes it wrote there. */
  datatype Writer = Writer(current: Option<nat>, size: nat)

  const IDLE_WRITER := Writer(None, 0)

  /** The writer and the directory after some steps; `nextId` numbers the files that get created. */
  datatype Prepared = Prepared(ok: bool, writer: Writer, spool: Spool, nextId: nat)

  /** A segment to append to, created under the current time if there is none; that name may be taken. */
  function EnsureSegment(writer: Writer, spool: Spool, nextId: nat, now: nat): Prepared {
    if writer.current.Some? then Prepared(true, writer, spool, nextId)
    else if Has(spool, now) then Prepared(false, writer, spool, nextId)
    else Prepared(true, Writer(Some(now), 0), spool + [Segment(now, nextId, [])], nextId + 1)
  }

  /** Everything EnqueueAsync does before it writes: the clock is read at `t1` and again when rotating. */
  function Prepare(writer: Writer, spool: Spool, nextId: nat, bytes: nat, segmentMaxBytes: int, t1: nat,
                   t2: nat): (q: Prepared)
    ensures q.ok ==> q.writer.current.Some?
  {
    var p := EnsureSegment(writer, spool, nextId, t1);
    if !p.ok then p
    else if p.writer.size + bytes > segmentMaxBytes then EnsureSegment(IDLE_WRITER, p.spool, p.nextId, t2)
    else p
  }

  /** Opening the current segment creates the file again if it has been moved away. */
  function Open(p: Prepared): (q: Prepared)
    requires p.ok ==> p.writer.current.Some?
    ensures q.ok == p.ok && q.writer == p.writer
    ensures q.ok ==> Has(q.spool, q.writer.current.value)
  {
    if p.ok && !Has(p.spool, p.writer.current.value) then
      var segment := Segment(p.writer.current.value, p.nextId, []);
      HasCreated(p.spool, segment);
      p.(spool := p.spool + [segment], nextId := p.nextId + 1)
    else p
  }

  function AppendTo(spool: Spool, name: nat, bytes: Bytes): Spool
    requires Has(spool, name)
  {
    var i := IndexOf(spool, name);
    spool[i := spool[i].(content := spool[i].content + bytes)]
  }

  lemma {:induction false} IndexOfNames(a: Spool, b: Spool, name: nat)
    requires |a| == |b| && forall i :: 0 <= i < |a| ==> a[i].name == b[i].name
    ensures IndexOf(a, name) == IndexOf(b, name)
  {
    if a != [] && a[0].name != name {
      IndexOfNames(a[1..], b[1..], name);
    }
  }

  lemma AppendTwice(spool: Spool, name: nat, a: Bytes, b: Bytes)
    requires Has(spool, name)
    ensures var once := AppendTo(spool, name, a);
            Has(once, name) && AppendTo(once, name, b) == AppendTo(spool, name, a + b)
  {
    hide IndexOf;
    IndexOfNames(spool, AppendTo(spool, name, a), name);
    var i := IndexOf(spool, name);
    assert spool[i].content + a + b == spool[i].content + (a + b);
  }

  lemma {:induction false} HasCreated(spool: Spool, segment: Segment)
    ensures Has(spool + [segment], segment.name)
  {
    if spool != [] {
      assert (spool + [segment])[1..] == spool[1..] + [segment];
      HasCreated(spool[1..], segment);
    }
  }
}
