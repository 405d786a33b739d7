/**
  Polling an event log channel: newest record first, at most 200 records, a bookmark that moves only after
  everything read was queued, and recovery when the log was cleared.
*/
module EventLog {
  import opened Wrappers

  const CAP: nat := 200

  predicate Ascending(s: seq<int>) {
    && (forall i :: 0 <= i < |s| ==> s[i] > 0)
    && forall i, j :: 0 <= i < j < |s| ==> s[i] < s[j]
  }

  function Min(a: nat, b: nat): nat {
    if a < b then a else b
  }

  function Last(s: seq<int>): int
    requires s != []
  {
    s[|s| - 1]
  }

  /** The record ids of a log that is read newest first, oldest first; records without an id are skipped. */
  function IdsOf(log: seq<Option<int>>): seq<int> {
    if log == [] then [] else IdsOf(log[1..]) + if log[0].Some? then [log[0].value] else []
  }

  // ---------------------------------------------------------------- one poll

  /** How many ids at the end of `ids` are above the bookmark. */
  function CountAbove(ids: seq<int>, bookmark: int): (n: nat)
    ensures n <= |ids|
  {
    if ids == [] || Last(ids) <= bookmark then 0 else 1 + CountAbove(ids[..|ids| - 1], bookmark)
  }

  /** In an ascending log these are all the ids above the bookmark. */
  lemma {:induction false} CountAboveMeaning(ids: seq<int>, bookmark: int, i: nat)
    requires Ascending(ids) && i < |ids|
    ensures ids[i] > bookmark <==> i >= |ids| - CountAbove(ids, bookmark)
    decreases |ids|
  {
    if Last(ids) > bookmark && i < |ids| - 1 {
      CountAboveMeaning(ids[..|ids| - 1], bookmark, i);
    }
  }

  /** The newest record lies below the bookmark. */
  predicate LooksCleared(ids: seq<int>, bookmark: int) {
    ids != [] && Last(ids) < bookmark && bookmark > 0
  }

  function Base(ids: seq<int>, bookmark: int): int {
    if LooksCleared(ids, bookmark) then 0 else bookmark
  }

  function NewCount(ids: seq<int>, bookmark: int): (n: nat)
    ensures n <= |ids| && n <= CAP
  {
    Min(CAP, CountAbove(ids, Base(ids, bookmark)))
  }

  /** What a poll queues. */
  function NewIds(ids: seq<int>, bookmark: int): seq<int> {
    ids[|ids| - NewCount(ids, bookmark)..]
  }

  function Moved(ids: seq<int>, bookmark: int): int {
    if NewIds(ids, bookmark) == [] then bookmark else Last(ids)
  }

  /**
    Exactly what a poll queues of an ascending log: the ids above the bookmark, or all of them if even the newest is
    below it, but only such as are among the newest 200; and the bookmark moves to the newest id if there are any.
  */
  lemma {:induction false} PollExactly(ids: seq<int>, bookmark: int, i: nat)
    requires Ascending(ids) && i < |ids| && bookmark >= 0
    ensures var restart := bookmark > 0 && Last(ids) < bookmark;
            && NewIds(ids, bookmark) == ids[|ids| - |NewIds(ids, bookmark)|..]
            && (i >= |ids| - |NewIds(ids, bookmark)| <==> i >= |ids| - 200 && (ids[i] > bookmark || restart))
            && Moved(ids, bookmark) == if Last(ids) > bookmark || restart then Last(ids) else bookmark
  {
    CountAboveMeaning(ids, Base(ids, bookmark), i);
    CountAboveMeaning(ids, Base(ids, bookmark), |ids| - 1);
  }

  /** The ids that a reader has passed over: what `newEvents` holds, in ascending order. */
  function Reversed(s: seq<int>): (r: seq<int>)
    ensures |r| == |s|
  {
    if s == [] then [] else [s[|s| - 1]] + Reversed(s[..|s| - 1])
  }

  function Insert(x: int, s: seq<int>): seq<int> {
    if s == [] || x <= s[0] then [x] + s else [s[0]] + Insert(x, s[1..])
  }

  function SortById(s: seq<int>): seq<int> {
    if s == [] then [] else Insert(s[|s| - 1], SortById(s[..|s| - 1]))
  }

  /** Sorting what was collected newest first turns it round. */
  lemma {:induction false} SortReverses(s: seq<int>)
    requires Ascending(Reversed(s))
    ensures SortById(s) == Reversed(s)
    decreases |s|
  {
    if s != [] {
      var r := Reversed(s);
      var t := Reversed(s[..|s| - 1]);
      assert t == r[1..];
      AscendingPart(r, 1, |r|);
      SortReverses(s[..|s| - 1]);
      if t != [] {
        assert r[0] < r[1];
      }
    }
  }

  lemma AscendingPart(s: seq<int>, i: nat, j: nat)
    requires Ascending(s) && i <= j <= |s|
    ensures Ascending(s[i..j]) && s[|s|..] == [] && (j == |s| ==> s[i..j] == s[i..])
  {
    var t := s[i..j];
    forall k | 0 <= k < |t| ensures t[k] > 0 {
      assert t[k] == s[i + k];
    }
    forall k, l | 0 <= k < l < |t| ensures t[k] < t[l] {
      assert t[k] == s[i + k] && t[l] == s[i + l];
    }
  }

  // ---------------------------------------------------------------- whole runs

  /**
    `all` lists every id logged since the log was last cleared, oldest first, of which the newest `kept` are
    still there. `committed` are the ids queued by polls that moved the bookmark, `queued` all that were queued.
  */
  datatype State = State(all: seq<int>, kept: nat, bookmark: int, queued: seq<int>, committed: seq<int>)

  datatype Action =
    | Log(more: seq<int>, kept: nat)        // records are added, the oldest may be dropped
    | Poll                                  // every record read is queued
    | FailedPoll(written: nat)              // queueing fails after some
  
  function Readable(s: State): seq<int>
    requires s.kept <= |s.all|
  {
    s.all[|s.all| - s.kept..]
  }

  predicate Step(s: State, a: Action, s': State) {
    && s.kept <= |s.all|
    && match a
       case Log(more, kept) =>
         Ascending(s.all + more) && kept <= s.kept + |more| && s' == s.(all := s.all + more, kept := kept)
       case Poll =>
         var ids := Readable(s);
         s' == s.(bookmark := Moved(ids, s.bookmark), queued := s.queued + NewIds(ids, s.bookmark),
                  committed := s.committed + NewIds(ids, s.bookmark))
       case FailedPoll(written) =>
         var ids := Readable(s);
         written < |NewIds(ids, s.bookmark)| && s' == s.(queued := s.queued + NewIds(ids, s.bookmark)[..written])
  }

  /** The channel was primed: the bookmark is 0, or the newest id; nothing was queued. */
  predicate Primed(s: State) {
    && Ascending(s.all) && s.kept <= |s.all| && s.queued == [] && s.committed == []
    && (s.bookmark == 0 || (s.all != [] && s.bookmark == Last(s.all)))
  }

  ghost predicate Run(states: seq<State>, actions: seq<Action>) {
    && |states| == |actions| + 1 && Primed(states[0])
    && forall i :: 0 <= i < |actions| ==> Step(states[i], actions[i], states[i + 1])
  }

  /** The number of ids logged up to the bookmark. */
  function Mark(s: State): (n: nat)
    ensures n <= |s.all|
  {
    |s.all| - CountAbove(s.all, s.bookmark)
  }

  /** What was logged and not passed by the bookmark. */
  function Pending(s: State): nat {
    CountAbove(s.all, s.bookmark)
  }

  /** A poll moves the bookmark past records that it did not read. */
  predicate Skips(s: State, a: Action) {
    a.Poll? && s.kept > 0 && Pending(s) > Min(CAP, s.kept)
  }

  predicate Sound(s: State) {
    && Ascending(s.all) && s.kept <= |s.all|
    && (s.bookmark == 0 || (Mark(s) > 0 && s.all[Mark(s) - 1] == s.bookmark))
  }

  lemma {:induction false} NotAbove(ids: seq<int>)
    requires Ascending(ids)
    ensures CountAbove(ids, 0) == |ids|
  {
    if ids != [] {
      CountAboveMeaning(ids, 0, 0);
    }
  }

  lemma {:induction false} CountAboveSuffix(all: seq<int>, kept: nat, b: int)
    requires Ascending(all) && kept <= |all|
    ensures CountAbove(all[|all| - kept..], b) == Min(kept, CountAbove(all, b))
    decreases kept
  {
    var ids := all[|all| - kept..];
    if kept > 0 && Last(all) > b {
      CountAboveSuffix(all[..|all| - 1], kept - 1, b);
      assert ids[..|ids| - 1] == all[..|all| - 1][|all| - kept..];
    }
  }

  lemma {:induction false} CountAboveMore(all: seq<int>, more: seq<int>, b: int)
    requires Ascending(all + more) && (b == 0 || (all != [] && b <= Last(all)))
    ensures |all + more| - CountAbove(all + more, b) == |all| - CountAbove(all, b)
  {
    hide CountAbove;
    var whole := all + more;
    var m := |all| - CountAbove(all, b);
    var n := |whole| - CountAbove(whole, b);
    AscendingPart(whole, 0, |all|);
    assert whole[0..|all|] == all;
    if n < |all| {
      CountAboveMeaning(whole, b, n);
      CountAboveMeaning(all, b, n);
    }
    if m < |whole| {
      CountAboveMeaning(whole, b, m);
      if m < |all| {
        CountAboveMeaning(all, b, m);
      } else {
        Beyond(all, more, b, m);
      }
    }
  }

  lemma Beyond(all: seq<int>, more: seq<int>, b: int, i: nat)
    requires Ascending(all + more) && (b == 0 || (all != [] && b <= Last(all))) && |all| <= i < |all + more|
    ensures (all + more)[i] > b
  {
    if b != 0 {
      assert (all + more)[|all| - 1] < (all + more)[i];
    }
  }

  lemma {:induction false} CountAboveLast(all: seq<int>)
    requires all != []
    ensures CountAbove(all, Last(all)) == 0
  {}

  /** How many records a poll queues between clears. */
  function Taken(s: State): nat {
    Min(CAP, Min(s.kept, Pending(s)))
  }

  /** What a poll does between clears, in terms of everything logged: no false alarm, and the newest are read. */
  lemma PollReads(s: State)
    requires Sound(s)
    ensures !LooksCleared(Readable(s), s.bookmark)
    ensures Taken(s) <= |s.all| && NewIds(Readable(s), s.bookmark) == s.all[|s.all| - Taken(s)..]
  {
    hide CountAbove, Ascending, NewIds, Mark;
    var ids := Readable(s);
    if s.kept > 0 {
      assert Last(ids) == Last(s.all);
      BookmarkBelow(s);
    }
    CountAboveSuffix(s.all, s.kept, s.bookmark);
    assert NewCount(ids, s.bookmark) == Taken(s);
    NewestOfNewest(s.all, s.kept, s.bookmark);
  }

  lemma NewestOfNewest(all: seq<int>, kept: nat, b: int)
    requires kept <= |all|
    ensures var ids := all[|all| - kept..]; NewIds(ids, b) == all[|all| - NewCount(ids, b)..]
  {
    hide CountAbove, NewCount;
  }

  lemma BookmarkBelow(s: State)
    requires Sound(s)
    ensures s.bookmark == 0 || (s.all != [] && s.bookmark <= Last(s.all))
  {
    hide CountAbove;
  }

  lemma LogSound(s: State, a: Action, s': State)
    requires Sound(s) && Step(s, a, s') && a.Log?
    ensures Sound(s') && Mark(s') == Mark(s) && s'.all[..Mark(s)] == s.all[..Mark(s)]
  {
    hide CountAbove, Ascending;
    BookmarkBelow(s);
    CountAboveMore(s.all, a.more, s.bookmark);
    assert (s.all + a.more)[..Mark(s)] == s.all[..Mark(s)];
  }

  lemma PollSound(s: State, a: Action, s': State)
    requires Sound(s) && Step(s, a, s') && a.Poll?
    ensures Sound(s') && s'.all == s.all && Mark(s') - Mark(s) == (if s.kept > 0 then Pending(s) else 0)
    ensures Taken(s) <= Mark(s') && s'.committed == s.committed + s.all[Mark(s') - Taken(s)..Mark(s')]
  {
    hide CountAbove, Ascending, NewIds;
    PollReads(s);
    var n := Taken(s);
    if n > 0 {
      assert Last(Readable(s)) == Last(s.all);
      CountAboveLast(s.all);
      assert s.all[|s.all| - n..] == s.all[|s.all| - n..|s.all|];
    } else {
      assert s.all[|s.all| - n..] == [];
      assert s.all[Mark(s')..Mark(s')] == [];
    }
  }

  lemma StepSound(s: State, a: Action, s': State)
    requires Sound(s) && Step(s, a, s')
    ensures Sound(s')
  {
    hide CountAbove, Ascending;
    match a
    case Log(_, _) => LogSound(s, a, s');
    case Poll => PollSound(s, a, s');
    case FailedPoll(_) =>
  }

  ghost predicate Skipped(states: seq<State>, actions: seq<Action>)
    requires |states| == |actions| + 1
  {
    exists i :: 0 <= i < |actions| && Skips(states[i], actions[i])
  }

  lemma Shorter(states: seq<State>, actions: seq<Action>)
    requires Run(states, actions) && actions != []
    ensures Run(states[..|actions|], actions[..|actions| - 1])
    ensures Step(states[|actions| - 1], actions[|actions| - 1], states[|actions|])
    ensures Skipped(states, actions) <==>
            Skipped(states[..|actions|], actions[..|actions| - 1])
                || Skips(states[|actions| - 1], actions[|actions| - 1])
  {
    hide Step, Skips;
    var n := |actions| - 1;
    var ss, aa := states[..n + 1], actions[..n];
    forall i | 0 <= i < n ensures Step(ss[i], aa[i], ss[i + 1]) {
      assert Step(states[i], actions[i], states[i + 1]);
    }
    assert forall i :: 0 <= i < n ==> ss[i] == states[i] && aa[i] == actions[i];
    if Skipped(states, actions) {
      var i :| 0 <= i < |actions| && Skips(states[i], actions[i]);
      assert i < n ==> Skips(ss[i], aa[i]);
    }
    if Skipped(ss, aa) {
      var i :| 0 <= i < n && Skips(ss[i], aa[i]);
      assert Skips(states[i], actions[i]);
    }
  }

  /** All committed ids are up to the bookmark, and in order. */
  predicate InOrder(s: State) {
    Ascending(s.committed) && (s.committed != [] ==> Last(s.committed) <= s.bookmark)
  }

  lemma StepInOrder(s: State, a: Action, s': State)
    requires Sound(s) && Step(s, a, s') && InOrder(s)
    ensures InOrder(s')
  {
    hide CountAbove, NewIds, LooksCleared;
    if a.Poll? {
      hide Ascending;
      PollReads(s);
      var n := Taken(s);
      var added := s.all[|s.all| - n..];
      AscendingPart(s.all, |s.all| - n, |s.all|);
      if n > 0 {
        CountAboveMeaning(s.all, s.bookmark, |s.all| - n);
        assert Last(Readable(s)) == Last(s.all) == Last(added);
        AscendingJoin(s.committed, added);
      } else {
        assert s.committed + added == s.committed;
      }
    }
  }

  lemma AscendingJoin(a: seq<int>, b: seq<int>)
    requires Ascending(a) && Ascending(b) && (a != [] && b != [] ==> Last(a) < b[0])
    ensures Ascending(a + b)
  {
    forall i, j | 0 <= i < j < |a + b| ensures (a + b)[i] < (a + b)[j] {
      if i < |a| <= j {
        assert a[i] <= Last(a) < b[0] <= b[j - |a|];
      }
    }
  }

  /** Between clears nothing is committed twice, or out of order, and no clear is suspected. */
  lemma {:induction false} NothingTwice(states: seq<State>, actions: seq<Action>)
    requires Run(states, actions)
    ensures InOrder(states[|actions|]) && Sound(states[|actions|])
    ensures !LooksCleared(Readable(states[|actions|]), states[|actions|].bookmark)
    decreases |actions|
  {
    hide Step, Skipped;
    var n := |actions|;
    if n == 0 {
      PrimedSound(states[0]);
    } else {
      Shorter(states, actions);
      NothingTwice(states[..n], actions[..n - 1]);
      StepSound(states[n - 1], actions[n - 1], states[n]);
      StepInOrder(states[n - 1], actions[n - 1], states[n]);
    }
    PollReads(states[n]);
  }

  lemma PrimedSound(s: State)
    requires Primed(s)
    ensures Sound(s)
  {
    if s.bookmark == 0 {
    } else {
      CountAboveLast(s.all);
    }
  }

  /** Everything committed was queued, and nothing else was but what failing polls had queued before they failed. */
  lemma {:induction false} CommittedQueued(states: seq<State>, actions: seq<Action>)
    requires Run(states, actions)
    ensures var s := states[|actions|];
            && multiset(s.committed) <= multiset(s.queued)
            && ((forall a :: a in actions ==> !a.FailedPoll?) ==> s.queued == s.committed)
    decreases |actions|
  {
    hide NewIds, Moved, Readable;
    var n := |actions|;
    if n > 0 {
      Shorter(states, actions);
      CommittedQueued(states[..n], actions[..n - 1]);
      assert Step(states[n - 1], actions[n - 1], states[n]);
      assert actions[n - 1] in actions && forall a :: a in actions[..n - 1] ==> a in actions;
    }
  }

  /**
    Everything logged after priming and up to the bookmark was committed, exactly if no poll found more records
    above the bookmark than 200 or than the log still held.
  */
  lemma {:induction false} NothingMissedExactly(states: seq<State>, actions: seq<Action>)
    requires Run(states, actions)
    ensures Sound(states[|actions|])
    ensures var s := states[|actions|];
            var m := Mark(states[0]);
            && m <= Mark(s) && |s.committed| <= Mark(s) - m
            && (|s.committed| == Mark(s) - m <==> !Skipped(states, actions))
            && (s.committed == s.all[m..Mark(s)] <==> !Skipped(states, actions))
    decreases |actions|
  {
    hide Step, Mark, Skips, Sound;
    var n := |actions|;
    if n == 0 {
      PrimedSound(states[0]);
      assert states[0].all[Mark(states[0])..Mark(states[0])] == [];
    } else {
      hide Skipped, Run;
      Shorter(states, actions);
      NothingMissedExactly(states[..n], actions[..n - 1]);
      hide *;
      Missed(states[n - 1], actions[n - 1], states[n], Mark(states[0]));
    }
  }

  lemma Missed(s: State, a: Action, s': State, m: nat)
    requires Sound(s) && Step(s, a, s') && m <= Mark(s) && |s.committed| <= Mark(s) - m
    requires |s.committed| == Mark(s) - m ==> s.committed == s.all[m..Mark(s)]
    ensures Sound(s') && m <= Mark(s') && |s'.committed| <= Mark(s') - m
    ensures |s'.committed| == Mark(s') - m <==> |s.committed| == Mark(s) - m && !Skips(s, a)
    ensures |s'.committed| == Mark(s') - m ==> s'.committed == s'.all[m..Mark(s')]
  {
    hide CountAbove, Ascending, NewIds, Readable, Mark, Sound;
    match a
    case Poll =>
      PollSound(s, a, s');
      if |s.committed| == Mark(s) - m && !Skips(s, a) {
        assert s.all[m..Mark(s)] + s.all[Mark(s)..Mark(s')] == s.all[m..Mark(s')];
      }
    case Log(_, _) =>
      LogSound(s, a, s');
      assert s'.all[m..Mark(s)] == s'.all[..Mark(s)][m..] == s.all[..Mark(s)][m..] == s.all[m..Mark(s)];
    case FailedPoll(_) =>
      StepSound(s, a, s');
      assert Mark(s') == Mark(s) by { SameMark(s, s'); }
  }

  lemma SameMark(s: State, s': State)
    requires s.all == s'.all && s.bookmark == s'.bookmark
    ensures Mark(s) == Mark(s')
  {}

  // ---------------------------------------------------------------- a cleared log

  /**
    After a clear, the poll queues the newest (at most 200) records of the new log exactly if the newest id is
    below the bookmark, or so far above it that none of those is at or below it.
  */
  lemma ClearRecoveredExactly(ids: seq<int>, bookmark: int)
    requires Ascending(ids) && ids != [] && bookmark > 0
    ensures var n := Min(CAP, |ids|);
            NewIds(ids, bookmark) == ids[|ids| - n..] <==>
            Last(ids) < bookmark || ids[|ids| - n] > bookmark
  {
    hide CountAbove;
    var n := Min(CAP, |ids|);
    NotAbove(ids);
    if !LooksCleared(ids, bookmark) {
      CountAboveMeaning(ids, bookmark, |ids| - n);
    }
    assert NewIds(ids, bookmark) == ids[|ids| - n..] <==> NewCount(ids, bookmark) == n;
  }

  /** If the new log's newest id happens to equal the bookmark, the whole new log is passed over. */
  lemma ClearMissed(ids: seq<int>)
    requires Ascending(ids) && ids != []
    ensures NewIds(ids, Last(ids)) == [] && Moved(ids, Last(ids)) == Last(ids)
  {}

  // ---------------------------------------------------------------- the class

  class EventLogInput {
    var lastRecordId: Option<int>
    var queue: seq<int>

    constructor ()
      ensures lastRecordId == None && queue == []
    {
      lastRecordId, queue := None, [];
    }

    /** The first pass over a channel. */
    method Prime(fromBeginning: bool, log: seq<Option<int>>)
      modifies this`lastRecordId
      ensures lastRecordId == Some(if fromBeginning || log == [] || log[0].None? then 0 else log[0].value)
    {
      if fromBeginning {
        lastRecordId := Some(0);
        return;
      }
      var primedRecordId := 0;
      if log != [] && log[0].Some? {
        primedRecordId := log[0].value;
      }
      lastRecordId := Some(primedRecordId);
    }

    /** A later pass; `log` is read newest first, and queueing fails after `capacity` records. */
    method PollChannel(log: seq<Option<int>>, capacity: nat)
      requires lastRecordId.Some? && Ascending(IdsOf(log)) && lastRecordId.value >= 0
      modifies this
      ensures var ids, b := IdsOf(log), old(lastRecordId.value);
              if |NewIds(ids, b)| <= capacity then
                queue == old(queue) + NewIds(ids, b) && lastRecordId == Some(Moved(ids, b))
              else
                queue == old(queue) + NewIds(ids, b)[..capacity] && lastRecordId == old(lastRecordId)
    {
      hide CountAbove, Ascending, NewIds, IdsOf, Reversed, SortById;
      ghost var ids, b := IdsOf(log), lastRecordId.value;
      var newEvents: seq<int> := [];
      var currentLastSeen := lastRecordId.value;
      var readCount := 0;
      ghost var front := ids;
      var i := 0;
      NothingRead(log);
      while i < |log| && readCount < CAP
        invariant queue == old(queue) && lastRecordId == old(lastRecordId)
        invariant 0 <= i <= |log| && readCount == |newEvents| <= CAP
        invariant front == IdsOf(log[i..]) && ids == front + Reversed(newEvents)
        invariant currentLastSeen == if readCount > 0 then Base(ids, b) else b
        invariant forall k :: 0 <= k < |newEvents| ==> newEvents[k] > Base(ids, b)
      {
        var recordId := log[i];
        NextRecord(log, i, newEvents);
        i := i + 1;
        if recordId.None? {
          front := IdsOf(log[i..]);
          continue;
        }
        assert front != [] && Last(front) == recordId.value;
        if recordId.value == currentLastSeen {
          break;
        }
        if recordId.value < currentLastSeen {
          if readCount == 0 && currentLastSeen > 0 {
            currentLastSeen := 0;
            Positive(ids, |ids| - 1);
          } else {
            break;
          }
        }
        newEvents := newEvents + [recordId.value];
        readCount := readCount + 1;
        front := IdsOf(log[i..]);
      }
      AllRead(log);
      AboveBase(newEvents, Base(ids, b));
      Collected(ids, b, front, newEvents);
      NewIdsAscend(ids, b);
      if |newEvents| == 0 {
        assert queue + NewIds(ids, b) == queue;
      } else {
        var sorted := SortById(newEvents);
        assert sorted == NewIds(ids, b);
        assert sorted[..0] == [] && queue + [] == queue;
        var maxRecordId := currentLastSeen;
        for k := 0 to |sorted|
          invariant k <= capacity
          invariant queue == old(queue) + sorted[..k] && lastRecordId == old(lastRecordId)
          invariant maxRecordId == if k == 0 then currentLastSeen else sorted[k - 1]
        {
          if k == capacity {
            return;
          }
          queue := queue + [sorted[k]];
          if sorted[k] > maxRecordId {
            maxRecordId := sorted[k];
          }
        }
        assert sorted[..|sorted|] == sorted;
        lastRecordId := Some(maxRecordId);
      }
    }
  }

  lemma {:induction false} NothingRead(log: seq<Option<int>>)
    ensures log[0..] == log && IdsOf(log) + Reversed([]) == IdsOf(log)
  {}

  lemma AllRead(log: seq<Option<int>>)
    ensures IdsOf(log[|log|..]) == []
  {}

  lemma Positive(ids: seq<int>, i: nat)
    requires Ascending(ids) && i < |ids|
    ensures ids[i] > 0
  {}

  lemma {:induction false} NextRecord(log: seq<Option<int>>, i: nat, newEvents: seq<int>)
    requires i < |log|
    ensures log[i].None? ==> IdsOf(log[i + 1..]) == IdsOf(log[i..])
    ensures log[i].Some? ==>
              && IdsOf(log[i..]) == IdsOf(log[i + 1..]) + [log[i].value]
              && IdsOf(log[i..]) + Reversed(newEvents) == IdsOf(log[i + 1..]) + Reversed(newEvents + [log[i].value])
    ensures newEvents == [] ==> IdsOf(log[i..]) + Reversed(newEvents) == IdsOf(log[i..])
  {
    assert log[i..][1..] == log[i + 1..];
    if log[i].None? {
      assert IdsOf(log[i + 1..]) + [] == IdsOf(log[i + 1..]);
    } else {
      var more := newEvents + [log[i].value];
      assert more[..|more| - 1] == newEvents;
    }
  }

  lemma {:induction false} AboveBase(newEvents: seq<int>, base: int)
    requires forall k :: 0 <= k < |newEvents| ==> newEvents[k] > base
    ensures forall k :: 0 <= k < |newEvents| ==> Reversed(newEvents)[k] > base
    decreases |newEvents|
  {
    if newEvents != [] {
      AboveBase(newEvents[..|newEvents| - 1], base);
    }
  }

  /** Whatever ended the reading, what was collected is what a poll queues. */
  lemma {:induction false} Collected(ids: seq<int>, b: int, front: seq<int>, newEvents: seq<int>)
    requires Ascending(ids) && ids == front + Reversed(newEvents) && |newEvents| <= CAP
    requires forall k :: 0 <= k < |newEvents| ==> Reversed(newEvents)[k] > Base(ids, b)
    requires |newEvents| == CAP || front == [] || Last(front) <= Base(ids, b)
    ensures SortById(newEvents) == NewIds(ids, b)
    ensures |newEvents| == |NewIds(ids, b)|
  {
    hide CountAbove, Ascending, SortById, Reversed, Base;
    var base, n := Base(ids, b), |newEvents|;
    assert Reversed(newEvents) == ids[|front|..] && |ids| - n == |front|;
    AscendingPart(ids, |front|, |ids|);
    SortReverses(newEvents);
    assert n > 0 ==> ids[|front|] == Reversed(newEvents)[0];
    assert front != [] ==> ids[|front| - 1] == Last(front);
    Counted(ids, base, n);
    assert NewCount(ids, b) == n;
  }

  lemma {:induction false} Counted(ids: seq<int>, base: int, n: nat)
    requires Ascending(ids) && n <= |ids| && (n > 0 ==> ids[|ids| - n] > base)
    requires n == CAP || n == |ids| || ids[|ids| - n - 1] <= base
    ensures CountAbove(ids, base) >= n && (n == CAP || CountAbove(ids, base) == n)
  {
    hide CountAbove, Ascending;
    if n > 0 {
      CountAboveMeaning(ids, base, |ids| - n);
    }
    if n < |ids| {
      CountAboveMeaning(ids, base, |ids| - n - 1);
    }
  }

  lemma NewIdsAscend(ids: seq<int>, b: int)
    requires Ascending(ids)
    ensures var r := NewIds(ids, b);
            && (forall i, j :: 0 <= i < j < |r| ==> r[i] < r[j])
            && (r != [] ==> r[|r| - 1] == Last(ids) && Moved(ids, b) == Last(ids) && r[0] > Base(ids, b))
            && (r == [] ==> Moved(ids, b) == b)
  {
    hide CountAbove;
    if NewIds(ids, b) != [] {
      CountAboveMeaning(ids, Base(ids, b), |ids| - NewCount(ids, b));
    }
  }
}
