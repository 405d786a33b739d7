/**
  A batch that could not be shipped is read again, and the detection rules evaluate it again: how often
  each event is evaluated in a run of the process.
*/
module Redelivery {
  import opened Wrappers
  import opened Lines
  import opened Queue
  import opened Pipeline
  import opened Invariants
  import opened Delivery
  import opened Ordering

  /** A batch handed to the rules and then shipped, after `from` events had been acknowledged. */
  datatype Attempt = Attempt(from: nat, events: seq<Bytes>)

  predicate HandsOver(s: System, a: Action, cfg: Config) {
    a.Read? && ReaderFree(s) && Next(s, a, cfg).held.Some?
  }

  /** All batches handed over in a run. */
  function Attempts(s: System, actions: seq<Action>, cfg: Config): seq<Attempt>
    decreases |actions|
  {
    if actions == [] then []
    else
      var s' := Next(s, actions[0], cfg);
      (if HandsOver(s, actions[0], cfg) then [Attempt(|s.committed|, s'.held.value.events)] else [])
      + Attempts(s', actions[1..], cfg)
  }

  predicate NoCrash(actions: seq<Action>) {
    Crash !in actions
  }

  // ---------------------------------------------------------------- attempts follow one another

  /** Each attempt starts where the one before started or, when that one was acknowledged, where it ended. */
  predicate Chained(from: nat, attempts: seq<Attempt>, end: nat)
    decreases |attempts|
  {
    if attempts == [] then from == end
    else
      && attempts[0].from == from && attempts[0].events != []
      && (Chained(from, attempts[1..], end) || Chained(from + |attempts[0].events|, attempts[1..], end))
  }

  /** The events acknowledged when the attempt is over. */
  function After(attempts: seq<Attempt>, i: nat, end: nat): nat
    requires i < |attempts|
  {
    if i + 1 < |attempts| then attempts[i + 1].from else end
  }

  predicate Acknowledged(attempts: seq<Attempt>, i: nat, end: nat)
    requires i < |attempts|
  {
    After(attempts, i, end) == attempts[i].from + |attempts[i].events|
  }

  predicate AllAcknowledged(attempts: seq<Attempt>, end: nat) {
    forall i :: 0 <= i < |attempts| ==> Acknowledged(attempts, i, end)
  }

  /** The attempts still to come, given the batch that is outstanding. */
  predicate ChainedFrom(s: System, attempts: seq<Attempt>, end: nat) {
    || Chained(|s.committed|, attempts, end)
    || (Outstanding(s).Some? && Chained(|s.committed| + |Outstanding(s).value.events|, attempts, end))
  }

  lemma QuietStep(s: System, a: Action, cfg: Config)
    requires !a.Crash? && !a.Reply? && !a.Acknowledge? && !HandsOver(s, a, cfg)
    ensures var s' := Next(s, a, cfg);
            s'.committed == s.committed && Outstanding(s') == Outstanding(s)
  {
    hide Choose, Take, ParseAll, Touch, ReadFails, Tail, Gained, Prepare, Open, Without, Keep, Has, NoteStreak, IndexOf,
      Sweepable, AppendTo, Forget, Swept, UnreadBytes;
  }

  lemma StepChained(s: System, a: Action, cfg: Config, rest: seq<Attempt>, end: nat)
    requires (s.held.Some? ==> s.due.None?) && !a.Crash? && ChainedFrom(Next(s, a, cfg), rest, end)
    ensures var attempt := if HandsOver(s, a, cfg)
                             then [Attempt(|s.committed|, Next(s, a, cfg).held.value.events)] else [];
            ChainedFrom(s, attempt + rest, end)
  {
    if HandsOver(s, a, cfg) {
      FirstChained(s, a, cfg, rest, end);
    } else {
      hide Chained, HandsOver;
      assert [] + rest == rest;
      if a.Reply? || a.Acknowledge? {
        hide Commit, Commits;
      } else {
        hide Next;
        QuietStep(s, a, cfg);
      }
    }
  }

  lemma {:induction false} FirstChained(s: System, a: Action, cfg: Config, rest: seq<Attempt>, end: nat)
    requires HandsOver(s, a, cfg) && ChainedFrom(Next(s, a, cfg), rest, end)
    ensures Chained(|s.committed|, [Attempt(|s.committed|, Next(s, a, cfg).held.value.events)] + rest, end)
  {
    hide Choose, Take, ParseAll, Touch, NoteStreak, UnreadBytes;
    var attempt := Attempt(|s.committed|, Next(s, a, cfg).held.value.events);
    assert ([attempt] + rest)[1..] == rest;
  }

  lemma {:induction false} AttemptsChained(s: System, actions: seq<Action>, cfg: Config)
    requires Inv(s, cfg) && NoCrash(actions)
    ensures ChainedFrom(s, Attempts(s, actions, cfg), |Exec(s, actions, cfg).committed|)
    decreases |actions|
  {
    hide Next, ChainedFrom, HandsOver, Inv;
    if actions == [] {
      assert ChainedFrom(s, [], |s.committed|) by { NoneChained(s); }
    } else {
      assert actions[0] in actions;
      InvNext(s, actions[0], cfg);
      AttemptsChained(Next(s, actions[0], cfg), actions[1..], cfg);
      InvParts(s, cfg);
      var rest := Attempts(Next(s, actions[0], cfg), actions[1..], cfg);
      StepChained(s, actions[0], cfg, rest, |Exec(s, actions, cfg).committed|);
    }
  }

  lemma NoneChained(s: System)
    ensures ChainedFrom(s, [], |s.committed|)
  {}

  // ---------------------------------------------------------------- attempts are stretches of the stream

  lemma HandedOver(s: System, cfg: Config)
    requires Sorted(s.spool) && OffsetsOk(s.spool, s.reader.offsets) && HandsOver(s, Read, cfg)
    ensures DoRead(s, cfg).held.value.events <= UnreadEvents(s.spool, s.reader.offsets, cfg.parses)
  {
    hide Take, Texts, Parseable, ParseAll, Touch, Choose, Unread, NoteStreak, UnreadEvents, BatchOk, Events;
    var i := Choose(s.spool, s.reader.offsets);
    assert i < |s.spool|;
    var r := Take(UnreadBytes(s.spool, s.reader.offsets, i), cfg.maxEvents, cfg.maxBytes);
    ParseAllEvents(r.texts, OffsetOf(s.reader.failures, s.spool[i].name), cfg.parses);
    BatchAtOk(s.spool, s.reader.offsets, i, cfg);
    CommitUnread(s.spool, s.reader.offsets, BatchAt(s.spool, s.reader.offsets, i, cfg), cfg.parses);
  }

  lemma StepStream(s: System, a: Action, cfg: Config)
    requires !a.Crash?
    ensures s.stream <= Next(s, a, cfg).stream && (s.moved ==> Next(s, a, cfg).moved)
  {
    hide Choose, Take, ParseAll, Touch, ReadFails, Tail, Gained, Prepare, Open, Without, Keep, Has;
  }

  lemma {:induction false} StreamLonger(s: System, actions: seq<Action>, cfg: Config)
    requires NoCrash(actions)
    ensures s.stream <= Exec(s, actions, cfg).stream && (s.moved ==> Exec(s, actions, cfg).moved)
    decreases |actions|
  {
    hide Next;
    if actions != [] {
      assert actions[0] in actions;
      StepStream(s, actions[0], cfg);
      StreamLonger(Next(s, actions[0], cfg), actions[1..], cfg);
    }
  }

  predicate Stretch(attempt: Attempt, stream: seq<Bytes>) {
    && attempt.from + |attempt.events| <= |stream|
    && stream[attempt.from..attempt.from + |attempt.events|] == attempt.events
  }

  lemma {:induction false} AttemptsInStream(s: System, actions: seq<Action>, cfg: Config)
    requires Inv(s, cfg) && StreamOk(s, cfg) && NoCrash(actions) && !Exec(s, actions, cfg).moved
    ensures forall attempt :: attempt in Attempts(s, actions, cfg) ==> Stretch(attempt, Exec(s, actions, cfg).stream)
    decreases |actions|
  {
    hide Next, Inv, HandsOver, UnreadEvents;
    if actions != [] {
      var a, s' := actions[0], Next(s, actions[0], cfg);
      assert a in actions;
      InvNext(s, a, cfg);
      StreamNext(s, a, cfg);
      StreamLonger(s, actions, cfg);
      AttemptsInStream(s', actions[1..], cfg);
      if HandsOver(s, a, cfg) {
        InvParts(s, cfg);
        FirstInStream(s, a, cfg, Exec(s, actions, cfg).stream);
      }
    }
  }

  lemma FirstInStream(s: System, a: Action, cfg: Config, stream: seq<Bytes>)
    requires Sorted(s.spool) && OffsetsOk(s.spool, s.reader.offsets) && StreamOk(s, cfg) && !s.moved
    requires HandsOver(s, a, cfg) && s.stream <= stream
    ensures Stretch(Attempt(|s.committed|, Next(s, a, cfg).held.value.events), stream)
  {
    hide DoRead, UnreadEvents, OffsetsOk, Sorted;
    HandedOver(s, cfg);
  }

  // ---------------------------------------------------------------- how often an event is evaluated

  /** The attempt includes the event at that place of the stream. */
  predicate Includes(attempt: Attempt, place: nat) {
    attempt.from <= place < attempt.from + |attempt.events|
  }

  /** How often the event is evaluated. */
  function Times(attempts: seq<Attempt>, place: nat): nat {
    if attempts == [] then 0
    else (if Includes(attempts[0], place) then 1 else 0) + Times(attempts[1..], place)
  }

  /** The first attempt that includes the event. */
  function First(attempts: seq<Attempt>, place: nat): (i: nat)
    ensures i <= |attempts| && (i < |attempts| ==> Includes(attempts[i], place))
    ensures forall j :: 0 <= j < i ==> !Includes(attempts[j], place)
  {
    if attempts == [] || Includes(attempts[0], place) then 0 else 1 + First(attempts[1..], place)
  }

  lemma {:induction false} NotBefore(from: nat, attempts: seq<Attempt>, end: nat, place: nat)
    requires Chained(from, attempts, end)
    ensures from <= end && (place < from ==> Times(attempts, place) == 0)
    ensures attempts != [] ==> attempts[0].from == from
    decreases |attempts|
  {
    if attempts != [] {
      NotBefore(if Chained(from, attempts[1..], end) then from else from + |attempts[0].events|, attempts[1..], end,
                place);
    }
  }

  /** An acknowledged event was evaluated just once exactly if the first attempt that includes it was acknowledged. */
  lemma {:induction false} OnceExactly(from: nat, attempts: seq<Attempt>, end: nat, place: nat)
    requires Chained(from, attempts, end) && from <= place
    ensures var i := First(attempts, place);
            && (place < end ==> i < |attempts| && (Times(attempts, place) == 1 <==> Acknowledged(attempts, i, end)))
            && (place >= end && i < |attempts| ==> !Acknowledged(attempts, i, end))
    decreases |attempts|
  {
    if attempts != [] {
      var rest, ahead := attempts[1..], from + |attempts[0].events|;
      var next := if Chained(from, rest, end) then from else ahead;
      NotBefore(next, rest, end, place);
      if next <= place {
        OnceExactly(next, rest, end, place);
        TimesFirst(rest, place);
      }
    }
  }

  lemma {:induction false} TimesFirst(attempts: seq<Attempt>, place: nat)
    ensures Times(attempts, place) > 0 <==> First(attempts, place) < |attempts|
  {
    if attempts != [] {
      TimesFirst(attempts[1..], place);
    }
  }

  /** Everything the rules evaluate, in order. */
  function Evaluated(attempts: seq<Attempt>): seq<Bytes> {
    if attempts == [] then [] else attempts[0].events + Evaluated(attempts[1..])
  }

  lemma {:induction false} EvaluatedLength(from: nat, attempts: seq<Attempt>, end: nat)
    requires Chained(from, attempts, end)
    ensures |Evaluated(attempts)| >= end - from
    ensures |Evaluated(attempts)| == end - from <==> AllAcknowledged(attempts, end)
    decreases |attempts|
  {
    if attempts != [] {
      var rest, ahead := attempts[1..], from + |attempts[0].events|;
      var next := if Chained(from, rest, end) then from else ahead;
      NotBefore(next, rest, end, 0);
      EvaluatedLength(next, rest, end);
      assert Acknowledged(attempts, 0, end) <==> next == ahead;
      assert forall i :: 0 <= i < |rest| ==> (Acknowledged(rest, i, end) <==> Acknowledged(attempts, i + 1, end));
      assert AllAcknowledged(attempts, end) <==> AllAcknowledged(rest, end) && Acknowledged(attempts, 0, end) by {
        if AllAcknowledged(rest, end) && Acknowledged(attempts, 0, end) {
          forall i | 0 <= i < |attempts| ensures Acknowledged(attempts, i, end) {
            assert i > 0 ==> Acknowledged(rest, i - 1, end);
          }
        }
      }
    }
  }

  lemma {:induction false} EvaluatedStretch(from: nat, attempts: seq<Attempt>, end: nat, stream: seq<Bytes>)
    requires Chained(from, attempts, end) && AllAcknowledged(attempts, end) && end <= |stream|
    requires forall attempt :: attempt in attempts ==> Stretch(attempt, stream)
    ensures from <= end && Evaluated(attempts) == stream[from..end]
    decreases |attempts|
  {
    if attempts != [] {
      var rest, ahead := attempts[1..], from + |attempts[0].events|;
      var next := if Chained(from, rest, end) then from else ahead;
      NotBefore(next, rest, end, 0);
      assert Acknowledged(attempts, 0, end) && next == ahead;
      forall i | 0 <= i < |rest| ensures Acknowledged(rest, i, end) {
        assert Acknowledged(attempts, i + 1, end);
      }
      assert attempts[0] in attempts;
      EvaluatedStretch(ahead, rest, end, stream);
      assert stream[from..end] == stream[from..ahead] + stream[ahead..end];
    }
  }

  // ---------------------------------------------------------------- over runs

  /**
    After any history and a restart, in any run of the process without quarantine: what is evaluated in each attempt
    is the stretch of the stream behind the acknowledged events. An acknowledged event was evaluated at least once,
    and just once exactly if the first attempt that includes it was acknowledged.
  */
  lemma {:induction false} EvaluatedOnceExactly(before: seq<Action>, after: seq<Action>, place: nat, cfg: Config)
    requires NoCrash(after) && !Exec(Next(Exec(Init(), before, cfg), Crash, cfg), after, cfg).moved
    ensures var start := Next(Exec(Init(), before, cfg), Crash, cfg);
            var e := Exec(start, after, cfg);
            var attempts := Attempts(start, after, cfg);
            var first := First(attempts, place);
            && (forall attempt :: attempt in attempts ==> Stretch(attempt, e.stream))
            && e.committed <= e.stream
            && (place < |e.committed| ==>
                  && first < |attempts|
                  && (Times(attempts, place) == 1 <==> Acknowledged(attempts, first, |e.committed|)))
  {
    hide Inv, StreamOk, Chained, Times, First, Acknowledged;
    var start, attempts := FromStart(before, after, cfg);
    OnceExactly(0, attempts, |Exec(start, after, cfg).committed|, place);
  }

  /** Altogether the rules evaluate the acknowledged events, in order and once each, exactly if no attempt failed. */
  lemma {:induction false} EvaluatedIsCommittedExactly(before: seq<Action>, after: seq<Action>, cfg: Config)
    requires NoCrash(after) && !Exec(Next(Exec(Init(), before, cfg), Crash, cfg), after, cfg).moved
    ensures var start := Next(Exec(Init(), before, cfg), Crash, cfg);
            var e := Exec(start, after, cfg);
            var attempts := Attempts(start, after, cfg);
            Evaluated(attempts) == e.committed <==> AllAcknowledged(attempts, |e.committed|)
  {
    hide Inv, StreamOk, Chained, Evaluated, AllAcknowledged;
    var start, attempts := FromStart(before, after, cfg);
    var e := Exec(start, after, cfg);
    EvaluatedLength(0, attempts, |e.committed|);
    if AllAcknowledged(attempts, |e.committed|) {
      EvaluatedStretch(0, attempts, |e.committed|, e.stream);
    }
  }

  lemma {:induction false} FromStart(before: seq<Action>, after: seq<Action>, cfg: Config)
    returns (start: System, attempts: seq<Attempt>)
    requires NoCrash(after) && !Exec(Next(Exec(Init(), before, cfg), Crash, cfg), after, cfg).moved
    ensures start == Next(Exec(Init(), before, cfg), Crash, cfg) && attempts == Attempts(start, after, cfg)
    ensures var e := Exec(start, after, cfg);
            && Chained(0, attempts, |e.committed|) && e.committed <= e.stream
            && forall attempt :: attempt in attempts ==> Stretch(attempt, e.stream)
  {
    hide Inv, Chained, UnreadEvents, AllEvents, Attempts, Exec;
    var s := Exec(Init(), before, cfg);
    start := Next(s, Crash, cfg);
    attempts := Attempts(start, after, cfg);
    InvInit(cfg);
    InvExec(Init(), before, cfg);
    InvNext(s, Crash, cfg);
    AllUnread(start.spool, cfg.parses);
    assert StreamOk(start, cfg);
    StreamExec(start, after, cfg);
    AttemptsChained(start, after, cfg);
    AttemptsInStream(start, after, cfg);
  }
}
