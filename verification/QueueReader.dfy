/**
  FileQueueReader: each call, although it touches the directory many times while the writer runs,
  takes one step of module Queue on a single snapshot of the directory.
*/
module QueueReader {
  import opened Wrappers
  import opened Lines
  import opened Queue
  import opened SegmentReader

  class FileQueueReader {
    var segmentOffsets: Offsets
    var segmentParseFailures: map<nat, nat>
    var lastBatch: Option<LastBatch>

    function State(): Reader
      reads this
    {
      Reader(segmentOffsets, segmentParseFailures, lastBatch)
    }

    constructor ()
      ensures State() == FRESH_READER
    {
      segmentOffsets, segmentParseFailures, lastBatch := map[], map[], None;
    }

    /** Finds the oldest listed segment with unread bytes; `snap` is where that choice is right. */
    method ChooseSegment(dir: Directory)
      returns (chosen: Option<nat>, startOffset: nat, ghost snap: Spool, ghost k: nat)
      requires Sorted(dir.spool)
      modifies this`segmentOffsets, dir`spool
      ensures Evolves(old(dir.spool), snap) && Evolves(snap, dir.spool) && Sorted(snap) && Sorted(dir.spool)
      ensures k == Choose(snap, old(segmentOffsets)) <= |snap|
      ensures segmentOffsets == Touch(old(segmentOffsets), if k < |snap| then snap[..k + 1] else snap)
      ensures if k == |snap| then chosen.None?
              else chosen == Some(snap[k].name) && startOffset == OffsetOf(old(segmentOffsets), snap[k].name)
    {
      hide Evolves, IndexOf, Choose, Touch, Sorted;
      chosen, startOffset, k := None, 0, 0;
      ghost var offsets0 := segmentOffsets;
      dir.Others();
      var segments := dir.spool;  // only the names are looked at
      EvolvesSorted(old(dir.spool), segments);
      EvolvesReflexive(segments);
      TouchNothing(offsets0, segments);
      for i := 0 to |segments|
        invariant Sorted(dir.spool) && Evolves(segments, dir.spool)
        invariant segmentOffsets == Touch(offsets0, segments[..i])
        invariant forall j :: 0 <= j < i ==> !Unread(segments[j], offsets0)
      {
        var name := segments[i].name;
        TouchOneMore(offsets0, segments, i);
        if name !in segmentOffsets {
          segmentOffsets := segmentOffsets[name := 0];
        }
        var offset := segmentOffsets[name];
        label BeforeOthers:
        dir.Others();
        EvolvesSorted(old@BeforeOthers(dir.spool), dir.spool);
        EvolvesTransitive(segments, old@BeforeOthers(dir.spool), dir.spool);
        SegmentStays(segments, dir.spool, i);
        var length := dir.Length(name);
        if length > offset {
          snap, k := dir.spool, i;
          EvolvesTransitive(old(dir.spool), segments, snap);
          EvolvesReflexive(snap);
          assert snap[..i + 1] == snap[..i] + [snap[i]];
          TouchNames(offsets0, segments[..i + 1], snap[..i + 1]);
          ChooseIs(snap, offsets0, i);
          return Some(name), offset, snap, k;
        }
      }
      snap, k := segments, |segments|;
      assert segments[..k] == segments;
      ChooseIs(segments, offsets0, k);
    }

    /** Parses the texts of one read, keeping the failure streak of the segment. */
    method ParseTexts(name: nat, texts: seq<Bytes>, parses: Bytes -> bool) returns (results: seq<Bytes>, poisoned: bool)
      modifies this`segmentParseFailures
      ensures var p := ParseAll(texts, OffsetOf(old(segmentParseFailures), name), parses);
              && results == p.events && poisoned == p.poisoned
              && segmentParseFailures ==
                 if texts == [] then old(segmentParseFailures)
                     else NoteStreak(old(segmentParseFailures), name, p.streak)
    {
      results, poisoned := [], false;
      ghost var failures0 := segmentParseFailures;
      ghost var all := ParseAll(texts, OffsetOf(failures0, name), parses);
      ghost var streak: nat := OffsetOf(failures0, name);
      assert texts[0..] == texts;
      for t := 0 to |texts|
        invariant segmentParseFailures == (if t == 0 then failures0 else NoteStreak(failures0, name, streak))
        invariant streak == OffsetOf(segmentParseFailures, name)
        invariant var rest := ParseAll(texts[t..], streak, parses);
                  all == Parsed(results + rest.events, rest.streak, rest.poisoned)
      {
        var line := texts[t];
        assert texts[t..][1..] == texts[t + 1..];
        if parses(line) {
          results := results + [line];
          segmentParseFailures := segmentParseFailures - {name};
          streak := 0;
        } else {
          var failures := OffsetOf(segmentParseFailures, name) + 1;
          segmentParseFailures := segmentParseFailures[name := failures];
          streak := failures;
          if failures >= QUARANTINE_THRESHOLD {
            return results, true;
          }
        }
      }
    }

    /** Moves a poisoned segment out of the way and forgets it, unless the move fails. */
    method QuarantineSegment(dir: Directory, name: nat, fails: bool) returns (moved: bool)
      requires Has(dir.spool, name)
      modifies this, dir`spool, dir`bad
      ensures moved == !fails
      ensures var i := IndexOf(old(dir.spool), name);
              if moved then
                && dir.spool == Without(old(dir.spool), i) && dir.bad == old(dir.bad) + [old(dir.spool)[i]]
                && State() == Forget(old(State()), name)
              else
                dir.spool == old(dir.spool) && dir.bad == old(dir.bad) && State() == old(State())
      ensures moved ==> name !in segmentOffsets && name !in segmentParseFailures
      ensures lastBatch == if moved && old(lastBatch).Some? && old(lastBatch).value.name == name then None
                           else old(lastBatch)
    {
      moved := dir.MoveAway(name, fails);
      if moved {
        segmentOffsets := segmentOffsets - {name};
        segmentParseFailures := segmentParseFailures - {name};
        if lastBatch.Some? && lastBatch.value.name == name {
          lastBatch := None;
        }
      }
    }

    /**
      One call. `snap` is the directory at the moment the call took effect, `before` the directory just
      before a poisoned segment was moved away, or at the end. The read fails if the chosen segment cannot be read.
    */
    method ReadBatch(dir: Directory, maxEvents: int, maxBytes: int, parses: Bytes -> bool, faults: Faults)
      returns (results: seq<Bytes>, ghost moved: bool, ghost snap: Spool, ghost before: Spool)
      requires Sorted(dir.spool)
      modifies this, dir`spool, dir`bad
      ensures Evolves(old(dir.spool), snap) && Evolves(snap, before)
      ensures Unreadable(old(State()), snap, maxEvents, maxBytes, faults) ==>
                results == [] && !moved && State() == ReadFails(old(State()), snap)
      ensures !Unreadable(old(State()), snap, maxEvents, maxBytes, faults) ==>
                var step := Read(old(State()), snap, maxEvents, maxBytes, parses);
                && results == step.events
                && moved == (step.poisoned.Some? && !faults.move)
                && State() == (if moved then Forget(step.reader, step.poisoned.value) else step.reader)
                && (moved ==>
                      var i := IndexOf(before, step.poisoned.value);
                      i < |before| && dir.spool == Without(before, i) && dir.bad == old(dir.bad) + [before[i]])
      ensures !moved ==> dir.spool == before && dir.bad == old(dir.bad)
      ensures lastBatch.Some? ==> lastBatch.value.count == |results|
      ensures Unreadable(old(State()), snap, maxEvents, maxBytes, faults) ==> lastBatch.None?
    {
      hide Take, Evolves, IndexOf, Choose, Touch, Sorted, Without, ParseAll, NoteStreak, Has;
      results, moved := [], false;
      lastBatch := None;

      var chosen, startOffset;
      ghost var k: nat;
      chosen, startOffset, snap, k := ChooseSegment(dir);
      before := dir.spool;
      if chosen.None? {
        return;
      }
      if faults.read && maxEvents > 0 && maxBytes > 0 {
        return;
      }
      var name := chosen.value;
      ghost var atChoice := snap;
      SegmentStays(snap, dir.spool, k);
      var texts, newOffset, reachedEof;
      ghost var s: Spool;
      texts, newOffset, reachedEof, s := ReadLinesFromOffset(dir, name, startOffset, maxEvents, maxBytes);
      EvolvesTransitive(atChoice, before, s);
      EvolvesTransitive(old(dir.spool), atChoice, s);
      EvolvesSorted(before, s);
      ChoiceStands(atChoice, s, old(segmentOffsets), k);
      snap := s;
      NoRoomTaken(UnreadBytes(s, old(segmentOffsets), k), maxEvents, maxBytes);
      var poisoned;
      results, poisoned := ParseTexts(name, texts, parses);
      if poisoned {
        label Poisoned:
        EvolvesSorted(s, dir.spool);
        dir.Others();
        before := dir.spool;
        EvolvesTransitive(s, old@Poisoned(dir.spool), before);
        EvolvesAt(s, before, name);
        var gone := QuarantineSegment(dir, name, faults.move);
        moved := gone;
        lastBatch := None;
      } else {
        before := dir.spool;
        lastBatch := Some(LastBatch(name, |results|, newOffset, reachedEof));
      }
    }

    /**
      Commits the last batch and tries to delete old segments that are fully acknowledged. `listing` is the
      directory when it was listed for deletion, `gone` the names of the segments that were deleted.
    */
    method Acknowledge(dir: Directory, count: int, stuck: set<nat>) returns (ghost listing: Spool, ghost gone: set<nat>)
      requires Sorted(dir.spool)
      modifies this, dir`spool
      ensures !Commits(old(State()), count) ==> State() == old(State()) && dir.spool == old(dir.spool)
      ensures Commits(old(State()), count) <==>
                old(lastBatch).Some? && count > 0 && count == old(lastBatch).value.count
      ensures Commits(old(State()), count) ==>
                lastBatch.None? && forall n :: n in gone ==> n !in segmentOffsets && n !in segmentParseFailures
      ensures Commits(old(State()), count) ==>
                var committed := Commit(old(State()), count);
                && Evolves(old(dir.spool), listing) && gone == Cleared(listing, |listing|, committed.offsets, stuck)
                && State() == Swept(committed, gone)
                && Evolves(Keep(listing, gone), dir.spool)
    {
      listing, gone := dir.spool, {};
      if lastBatch.None? {
        return;
      }
      var batch := lastBatch.value;
      if count <= 0 || count != batch.count {
        return;
      }
      segmentOffsets := segmentOffsets[batch.name := batch.newOffset];
      lastBatch := None;
      listing, gone := TryDeleteFullyAckedOldSegments(dir, stuck);
    }

    /** Deletes all old segments that were acknowledged to the last byte, never the newest, unless one is stuck. */
    method TryDeleteFullyAckedOldSegments(dir: Directory, stuck: set<nat>)
      returns (ghost listing: Spool, ghost gone: set<nat>)
      requires Sorted(dir.spool)
      modifies this`segmentOffsets, this`segmentParseFailures, dir`spool
      ensures Evolves(old(dir.spool), listing) && gone == Cleared(listing, |listing|, old(segmentOffsets), stuck)
      ensures segmentOffsets == old(segmentOffsets) - gone
      ensures segmentParseFailures == old(segmentParseFailures) - gone
      ensures Evolves(Keep(listing, gone), dir.spool)
    {
      hide Evolves, IndexOf, Sorted, Keep, Without, Cleared, Deletable;
      dir.Others();
      var segments := dir.spool;  // only the names are looked at
      EvolvesSorted(old(dir.spool), segments);
      listing, gone := segments, {};
      KeepAll(segments, gone);
      EvolvesReflexive(segments);
      ClearedNone(segments, segmentOffsets, stuck);
      if |segments| == 0 {
        return;
      }
      for i := 0 to |segments| - 1
        invariant Sorted(dir.spool) && Evolves(Keep(segments, gone), dir.spool)
        invariant gone == Cleared(segments, i, old(segmentOffsets), stuck)
        invariant segmentOffsets == old(segmentOffsets) - gone
        invariant segmentParseFailures == old(segmentParseFailures) - gone
      {
        var seg := segments[i].name;
        var offset := OffsetOf(segmentOffsets, seg);
        label BeforeOthers:
        dir.Others();
        EvolvesTransitive(Keep(segments, gone), old@BeforeOthers(dir.spool), dir.spool);
        EvolvesSorted(old@BeforeOthers(dir.spool), dir.spool);
        OldSegment(segments, dir.spool, i, old(segmentOffsets), stuck);
        var length := dir.Length(seg);
        if offset >= length && length > 0 {
          var ok := dir.Delete(seg, stuck);
          if ok {
            segmentOffsets := segmentOffsets - {seg};
            segmentParseFailures := segmentParseFailures - {seg};
            gone := gone + {seg};
          }
        }
      }
      NewestStays(segments, old(segmentOffsets), stuck);
    }
  }

  /** A segment was chosen, there is room for something, and it cannot be read. */
  predicate Unreadable(reader: Reader, spool: Spool, maxEvents: int, maxBytes: int, faults: Faults) {
    faults.read && maxEvents > 0 && maxBytes > 0 && Choose(spool, reader.offsets) < |spool|
  }

  /**
    An old segment of a listing, after those before it were dealt with: where it is now, whether it can go, and the
    directory without it.
  */
  lemma {:induction false} OldSegment(listing: Spool, now: Spool, i: nat, offsets: Offsets, stuck: set<nat>)
    requires Sorted(listing) && Sorted(now) && i < |listing| - 1
    requires Evolves(Keep(listing, Cleared(listing, i, offsets, stuck)), now)
    ensures var name, gone := listing[i].name, Cleared(listing, i, offsets, stuck);
            var k := IndexOf(now, name);
            && name !in gone && k < |now| && now[k] == listing[i]
            && Sorted(Without(now, k))
            && Evolves(Keep(listing, gone + {name}), Without(now, k))
            && (Deletable(listing, i, offsets) <==> 0 < |now[k].content| <= OffsetOf(offsets - gone, name))
            && Cleared(listing, i + 1, offsets, stuck) ==
               if Deletable(listing, i, offsets) && name !in stuck then gone + {name} else gone
  {
    hide Evolves, IndexOf, Sorted, Keep, Without, Cleared;
    var gone := Cleared(listing, i, offsets, stuck);
    ClearedSweepable(listing, i, offsets, stuck);
    ClearedMore(listing, i, offsets, stuck);
    ClearedSweepable(listing, |listing| - 1, offsets, stuck);
    IndexOfSorted(listing, i);
    IndexOfSorted(listing, |listing| - 1);
    KeepSorted(listing, gone);
    KeepWithout(listing, gone, i);
    var k := |Keep(listing[..i], gone)|;
    StaysPut(Keep(listing, gone), now, k);
    EvolvesWithout(Keep(listing, gone), now, k);
    EvolvesSorted(Without(Keep(listing, gone), k), Without(now, k));
    assert gone + {} == gone;
  }

  lemma NewestStays(listing: Spool, offsets: Offsets, stuck: set<nat>)
    requires listing != []
    ensures Cleared(listing, |listing|, offsets, stuck) == Cleared(listing, |listing| - 1, offsets, stuck)
  {}

  /** A segment that is not the newest does not change at all. */
  lemma {:induction false} StaysPut(before: Spool, after: Spool, k: nat)
    requires Sorted(before) && Evolves(before, after) && k < |before| - 1
    ensures k < |after| && after[k] == before[k] && IndexOf(after, before[k].name) == k
  {
    IndexOfSorted(after, k);
  }

  lemma {:induction false} NoRoomTaken(s: Bytes, maxEvents: int, maxBytes: int)
    ensures maxEvents <= 0 || maxBytes <= 0 ==> Take(s, maxEvents, maxBytes).consumed == 0
  {}

  /** A choice made on one snapshot is the right one on a later snapshot as well. */
  lemma {:induction false} ChoiceStands(listing: Spool, later: Spool, offsets: Offsets, k: nat)
    requires Sorted(listing) && Evolves(listing, later) && k == Choose(listing, offsets) < |listing|
    ensures k < |later| && k == Choose(later, offsets) && later[k].name == listing[k].name
    ensures IndexOf(later, later[k].name) == k
    ensures Touch(offsets, later[..k + 1]) == Touch(offsets, listing[..k + 1])
  {
    SegmentStays(listing, later, k);
    ChooseIs(later, offsets, k);
    TouchNames(offsets, listing[..k + 1], later[..k + 1]);
  }

  lemma {:induction false} TouchNames(offsets: Offsets, a: Spool, b: Spool)
    requires |a| == |b| && forall i :: 0 <= i < |a| ==> a[i].name == b[i].name
    ensures Touch(offsets, a) == Touch(offsets, b)
    decreases |a|
  {
    if a != [] {
      var n := a[0].name;
      TouchNames(if n in offsets then offsets else offsets[n := 0], a[1..], b[1..]);
    }
  }

  lemma EvolvesSorted(before: Spool, after: Spool)
    requires Evolves(before, after)
    ensures Sorted(after)
  {}

  lemma {:induction false} TouchNothing(offsets: Offsets, spool: Spool)
    ensures Touch(offsets, spool[..0]) == offsets
  {}

  lemma {:induction false} TouchOneMore(offsets: Offsets, spool: Spool, k: nat)
    requires k < |spool|
    ensures var t := Touch(offsets, spool[..k]);
            Touch(offsets, spool[..k + 1]) == if spool[k].name in t then t else t[spool[k].name := 0]
    decreases k
  {
    if k == 0 {
    } else {
      assert spool[..k + 1][1..] == spool[1..][..k];
      assert spool[..k][1..] == spool[1..][..k - 1];
      var n := spool[0].name;
      TouchOneMore(if n in offsets then offsets else offsets[n := 0], spool[1..], k - 1);
    }
  }

  lemma {:induction false} ChooseIs(spool: Spool, offsets: Offsets, k: nat)
    requires k <= |spool| && forall j :: 0 <= j < k ==> !Unread(spool[j], offsets)
    requires k < |spool| ==> Unread(spool[k], offsets)
    ensures Choose(spool, offsets) == k
  {
    var i := Choose(spool, offsets);
    assert !(i < k) && !(k < i);
  }

  /** Where segment `k` of a listing is found later, and that older ones have not changed. */
  lemma {:induction false} SegmentStays(listing: Spool, later: Spool, k: nat)
    requires Sorted(listing) && Evolves(listing, later) && k < |listing|
    ensures Has(later, listing[k].name) && IndexOf(later, listing[k].name) == k < |later|
    ensures IndexOf(listing, listing[k].name) == k
    ensures listing[k].content <= later[k].content && later[k].name == listing[k].name
    ensures forall j :: 0 <= j < k ==> later[j] == listing[j]
  {
    IndexOfSorted(listing, k);
    IndexOfSorted(later, k);
  }
}
