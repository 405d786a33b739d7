/** FileQueueWriter: one enqueue is `Prepare`, `Open` and an append in two writes. */
module QueueWriter {
  import opened Wrappers
  import opened Lines
  import opened Queue
  import opened SegmentReader

  class FileQueueWriter {
    var currentSegmentPath: Option<nat>
    var currentSegmentBytes: nat

    function State(): Writer
      reads this
    {
      Writer(currentSegmentPath, currentSegmentBytes)
    }

    constructor ()
      ensures State() == IDLE_WRITER
    {
      currentSegmentPath, currentSegmentBytes := None, 0;
    }

    /**
      `ok` is false when the call ends in an exception: a segment's name is taken, or there is no room for the line;
      `written` bytes of it are then on disk.
    */
    method Enqueue(dir: Directory, json: Bytes, segmentMaxBytes: int, t1: nat, t2: nat, room: nat)
      returns (ok: bool, ghost written: nat)
      modifies this, dir`spool, dir`nextId
      ensures var line := json + [NEWLINE];
              var p := Open(Prepare(old(State()), old(dir.spool), old(dir.nextId), |line|, segmentMaxBytes, t1, t2));
              && dir.nextId == p.nextId
              && ok == (p.ok && room >= |line|)
              && written == (if !p.ok then 0 else if room >= |line| then |line| else room)
              && State() == (if ok then p.writer.(size := p.writer.size + |line|) else p.writer)
              && dir.spool == (if p.ok then AppendTo(p.spool, p.writer.current.value, line[..written]) else p.spool)
    {
      hide IndexOf, AppendTo;
      written := 0;
      var bytes := |json| + 1;
      ok := EnsureCurrentSegment(dir, t1);
      if !ok {
        return;
      }
      if currentSegmentBytes + bytes > segmentMaxBytes {
        ok := RotateSegment(dir, t2);
        if !ok {
          return;
        }
      }
      var path := currentSegmentPath.value;
      ghost var before, id := dir.spool, dir.nextId;
      var _ := dir.Create(path, false);
      HasCreated(before, Segment(path, id, []));
      ghost var atOpen := dir.spool;
      ghost var n: nat;
      ok, n := dir.Append(path, json, room);
      written := n;
      WrittenSoFar(atOpen, path, json, n, 0);
      if !ok {
        return;
      }
      ok, n := dir.Append(path, [NEWLINE], room - |json|);
      WrittenSoFar(atOpen, path, json, |json|, n);
      written := written + n;
      if ok {
        currentSegmentBytes := currentSegmentBytes + bytes;
      }
    }

    method EnsureCurrentSegment(dir: Directory, now: nat) returns (ok: bool)
      modifies this, dir`spool, dir`nextId
      ensures var p := EnsureSegment(old(State()), old(dir.spool), old(dir.nextId), now);
              ok == p.ok && State() == p.writer && dir.spool == p.spool && dir.nextId == p.nextId
    {
      if currentSegmentPath.Some? {
        return true;
      }
      ok := dir.Create(now, true);
      if ok {
        currentSegmentPath := Some(now);
        currentSegmentBytes := 0;
      }
    }

    method RotateSegment(dir: Directory, now: nat) returns (ok: bool)
      modifies this, dir`spool, dir`nextId
      ensures var p := EnsureSegment(IDLE_WRITER, old(dir.spool), old(dir.nextId), now);
              ok == p.ok && State() == p.writer && dir.spool == p.spool && dir.nextId == p.nextId
    {
      currentSegmentPath := None;
      currentSegmentBytes := 0;
      ok := EnsureCurrentSegment(dir, now);
    }
  }

  lemma WrittenSoFar(spool: Spool, name: nat, json: Bytes, n: nat, k: nat)
    requires Has(spool, name) && n <= |json| && k <= 1 && (k == 1 ==> n == |json|)
    ensures Has(AppendTo(spool, name, json[..n]), name)
    ensures AppendTo(AppendTo(spool, name, json[..n]), name, [NEWLINE][..k]) ==
            AppendTo(spool, name, (json + [NEWLINE])[..n + k])
    ensures k == 0 ==> AppendTo(spool, name, json[..n]) == AppendTo(spool, name, (json + [NEWLINE])[..n])
  {
    hide IndexOf;
    AppendTwice(spool, name, json[..n], [NEWLINE][..k]);
    assert (json + [NEWLINE])[..n + k] == json[..n] + [NEWLINE][..k];
    assert (json + [NEWLINE])[..n] == json[..n];
  }
}
