/** Asking all nodes at once: one row for each, whatever order the answers come in and whenever the deadline strikes. */
module FanOut {
  /** What a node's task ends with. */
  datatype Outcome = Replied(ok: bool) | Raised

  datatype Why = Reply | TaskError | Deadline

  datatype Row = Row(node: string, ok: bool, why: Why)

  /**
    One pass of the loop: whether the deadline has passed at its start, and the tasks that wait()
    then reports done.
  */
  datatype Round = Round(expired: bool, done: seq<int>)

  function Mapped<T, U>(s: seq<T>, f: T -> U): seq<U> {
    if s == [] then [] else [f(s[0])] + Mapped(s[1..], f)
  }

  function NodeAt(nodes: seq<string>, t: int): string {
    if 0 <= t < |nodes| then nodes[t] else ""
  }

  /** The row a finished task gets. */
  function AnswerRow(nodes: seq<string>, outcomes: seq<Outcome>, t: int): Row {
    match if 0 <= t < |outcomes| then outcomes[t] else Raised
    case Replied(ok) => Row(NodeAt(nodes, t), ok, Reply)
    case Raised => Row(NodeAt(nodes, t), false, TaskError)
  }

  function DeadlineRow(nodes: seq<string>, t: int): Row {
    Row(NodeAt(nodes, t), false, Deadline)
  }

  function Upto(n: nat): (tasks: seq<int>)
    ensures |tasks| == n && forall i :: 0 <= i < n ==> tasks[i] == i
  {
    if n == 0 then [] else Upto(n - 1) + [n - 1]
  }

  /** The rows of some answered and some cancelled tasks. */
  function RowsFor(nodes: seq<string>, outcomes: seq<Outcome>, answered: seq<int>, cancelled: seq<int>): seq<Row> {
    Mapped(answered, (t: int) => AnswerRow(nodes, outcomes, t)) + Mapped(cancelled, (t: int) => DeadlineRow(nodes, t))
  }

  function Succeeded(rows: seq<Row>): seq<Row> {
    if rows == [] then [] else if rows[0].ok then [rows[0]] + Succeeded(rows[1..]) else Succeeded(rows[1..])
  }

  function NotSucceeded(rows: seq<Row>): seq<Row> {
    if rows == [] then [] else if rows[0].ok then NotSucceeded(rows[1..]) else [rows[0]] + NotSucceeded(rows[1..])
  }

  lemma {:induction false} PartitionKeeps(rows: seq<Row>)
    ensures multiset(Succeeded(rows) + NotSucceeded(rows)) == multiset(rows)
    ensures forall r :: r in Succeeded(rows) ==> r.ok
    ensures forall r :: r in NotSucceeded(rows) ==> !r.ok
    ensures (exists r :: r in rows && r.ok) <==> Succeeded(rows) != []
  {
    if rows != [] {
      PartitionKeeps(rows[1..]);
      assert rows == [rows[0]] + rows[1..];
    }
  }

  lemma {:induction false} MappedOfConcat<T, U>(a: seq<T>, b: seq<T>, f: T -> U)
    ensures Mapped(a + b, f) == Mapped(a, f) + Mapped(b, f)
  {
    if a == [] {
      assert a + b == b;
    } else {
      assert (a + b)[1..] == a[1..] + b;
      MappedOfConcat(a[1..], b, f);
    }
  }

  lemma MappedOne<T, U>(x: T, f: T -> U)
    ensures Mapped([x], f) == [f(x)]
  {
    assert [x][1..] == [];
  }

  lemma TakeOut<T>(s: seq<T>, i: nat)
    requires i < |s|
    ensures multiset(s) == multiset(s[..i] + s[i + 1..]) + multiset{s[i]}
  {
    assert s == s[..i] + [s[i]] + s[i + 1..];
  }

  lemma {:induction false} ImageTakeOut<T, U>(s: seq<T>, i: nat, f: T -> U)
    requires i < |s|
    ensures multiset(Mapped(s, f)) == multiset(Mapped(s[..i] + s[i + 1..], f)) + multiset{f(s[i])}
  {
    hide Mapped;
    assert s == s[..i] + ([s[i]] + s[i + 1..]);
    MappedOfConcat(s[..i], [s[i]] + s[i + 1..], f);
    MappedOfConcat([s[i]], s[i + 1..], f);
    MappedOfConcat(s[..i], s[i + 1..], f);
    MappedOne(s[i], f);
  }

  lemma {:induction false} SameImage<T, U>(a: seq<T>, b: seq<T>, f: T -> U)
    requires multiset(a) == multiset(b)
    ensures multiset(Mapped(a, f)) == multiset(Mapped(b, f))
    decreases |a|
  {
    hide Mapped;
    if a == [] {
      assert |multiset(b)| == 0;
    } else {
      assert a[0] in multiset(a);
      var i :| 0 <= i < |b| && b[i] == a[0];
      var rest, rest' := a[..0] + a[1..], b[..i] + b[i + 1..];
      assert multiset(rest) == multiset(rest') by { BothWithout(a, 0, b, i); }
      SameImage(rest, rest', f);
      ImageTakeOut(a, 0, f);
      ImageTakeOut(b, i, f);
    }
  }

  lemma BothWithout<T>(a: seq<T>, i: nat, b: seq<T>, j: nat)
    requires multiset(a) == multiset(b) && i < |a| && j < |b| && a[i] == b[j]
    ensures multiset(a[..i] + a[i + 1..]) == multiset(b[..j] + b[j + 1..])
  {
    TakeOut(a, i);
    TakeOut(b, j);
    CancelSame(multiset(a[..i] + a[i + 1..]), multiset(b[..j] + b[j + 1..]), multiset{a[i]});
  }

  lemma CancelSame<T>(a: multiset<T>, b: multiset<T>, c: multiset<T>)
    requires a + c == b + c
    ensures a == b
  {
    assert a == (a + c) - c;
    assert b == (b + c) - c;
  }

  // ---------------------------------------------------------------- the loop

  /** Task t was reported done in one of the first k rounds. */
  ghost predicate DoneBy(rounds: seq<Round>, k: nat, t: int)
    requires k <= |rounds|
  {
    exists j :: 0 <= j < k && t in rounds[j].done
  }

  ghost predicate AllDone(rounds: seq<Round>, k: nat, n: nat)
    requires k <= |rounds|
  {
    forall t :: 0 <= t < n ==> DoneBy(rounds, k, t)
  }

  ghost predicate SomeSuccess(rounds: seq<Round>, k: nat, outcomes: seq<Outcome>, n: nat)
    requires k <= |rounds|
  {
    exists t :: 0 <= t < n && DoneBy(rounds, k, t) && Succeeds(outcomes, t)
  }

  predicate Succeeds(outcomes: seq<Outcome>, t: int) {
    0 <= t < |outcomes| && outcomes[t] == Replied(true)
  }

  /** Why waiting ends after k rounds: nothing is left, the deadline has passed, or one success is enough. */
  ghost predicate Stops(rounds: seq<Round>, k: nat, outcomes: seq<Outcome>, n: nat, waitAll: bool)
    requires k < |rounds|
  {
    || AllDone(rounds, k, n)
    || rounds[k].expired
    || (!waitAll && SomeSuccess(rounds, k, outcomes, n))
  }

  /** Bookkeeping: every task is answered or still pending, and the results are those of the answered ones. */
  ghost predicate Tallied(results: seq<Row>, answered: seq<int>, pending: seq<int>, nodes: seq<string>,
                          outcomes: seq<Outcome>) {
    && multiset(answered) + multiset(pending) == multiset(Upto(|nodes|))
    && results == RowsFor(nodes, outcomes, answered, [])
  }

  /** The answered tasks are those reported done in the first k rounds. */
  ghost predicate AnsweredBy(answered: seq<int>, rounds: seq<Round>, k: nat, n: nat)
    requires k <= |rounds|
  {
    forall t :: t in answered <==> 0 <= t < n && DoneBy(rounds, k, t)
  }

  lemma {:induction false} InUpto(n: nat, t: int)
    ensures multiset(Upto(n))[t] == if 0 <= t < n then 1 else 0
  {
    if n > 0 {
      InUpto(n - 1, t);
    }
  }

  /** A task is pending exactly if it is not answered. */
  lemma {:induction false} PendingOrAnswered(answered: seq<int>, pending: seq<int>, n: nat)
    requires multiset(answered) + multiset(pending) == multiset(Upto(n))
    ensures forall t :: t in pending <==> 0 <= t < n && t !in answered
    ensures forall t :: t in answered ==> 0 <= t < n
  {
    forall t ensures (t in pending <==> 0 <= t < n && t !in answered) && (t in answered ==> 0 <= t < n) {
      InUpto(n, t);
      assert multiset(answered)[t] + multiset(pending)[t] == multiset(Upto(n))[t];
      assert t in answered <==> multiset(answered)[t] > 0;
      assert t in pending <==> multiset(pending)[t] > 0;
    }
  }

  /** Removes a task from the pending ones, if it is there. */
  method Pop(pending: seq<int>, t: int) returns (rest: seq<int>, found: bool)
    ensures found <==> t in pending
    ensures if found then multiset(pending) == multiset(rest) + multiset{t} else rest == pending
  {
    for i := 0 to |pending|
      invariant t !in pending[..i]
    {
      if pending[i] == t {
        TakeOut(pending, i);
        return pending[..i] + pending[i + 1..], true;
      }
    }
    return pending, false;
  }

  /** Takes the results of the tasks that wait() reports done. */
  method Collect(done: seq<int>, nodes: seq<string>, outcomes: seq<Outcome>,
                 results0: seq<Row>, pending0: seq<int>, ghost answered0: seq<int>)
    returns (results: seq<Row>, pending: seq<int>, ghost answered: seq<int>)
    requires Tallied(results0, answered0, pending0, nodes, outcomes)
    ensures Tallied(results, answered, pending, nodes, outcomes)
    ensures forall t :: t in answered <==> t in answered0 || (0 <= t < |nodes| && t in done)
  {
    hide Mapped, Upto;
    results, pending, answered := results0, pending0, answered0;
    for k := 0 to |done|
      invariant Tallied(results, answered, pending, nodes, outcomes)
      invariant forall t :: t in answered <==> t in answered0 || (0 <= t < |nodes| && t in done[..k])
    {
      var t := done[k];
      var found;
      PendingOrAnswered(answered, pending, |nodes|);
      pending, found := Pop(pending, t);
      assert done[..k + 1] == done[..k] + [t];
      if found {
        results := results + [AnswerRow(nodes, outcomes, t)];
        MappedOfConcat(answered, [t], (t: int) => AnswerRow(nodes, outcomes, t));
        MappedOne(t, (t: int) => AnswerRow(nodes, outcomes, t));
        var none: seq<Row> := Mapped([], (t: int) => DeadlineRow(nodes, t));
        assert none == [] by { MappedNone((t: int) => DeadlineRow(nodes, t)); }
        answered := answered + [t];
      }
    }
    assert done[..|done|] == done;
  }

  lemma MappedNone<T, U>(f: T -> U)
    ensures Mapped([], f) == []
  {}

  /** Gives up on the pending tasks: a deadline row for each. */
  method Cancel(results: seq<Row>, pending: seq<int>, nodes: seq<string>, outcomes: seq<Outcome>,
                ghost answered: seq<int>)
    returns (all: seq<Row>)
    requires Tallied(results, answered, pending, nodes, outcomes)
    ensures all == RowsFor(nodes, outcomes, answered, pending)
  {
    hide Upto;
    all := results;
    assert pending[..0] == [];
    for k := 0 to |pending|
      invariant all == RowsFor(nodes, outcomes, answered, pending[..k])
    {
      all := all + [DeadlineRow(nodes, pending[k])];
      assert pending[..k + 1] == pending[..k] + [pending[k]];
      MappedOfConcat(pending[..k], [pending[k]], (t: int) => DeadlineRow(nodes, t));
      MappedOne(pending[k], (t: int) => DeadlineRow(nodes, t));
    }
    assert pending[..|pending|] == pending;
  }

  /**
    Waiting ends after `stop` rounds, the first moment there is a reason to. A task is answered exactly if it was
    reported done by then, and cancelled otherwise; every requested node gets exactly one row, its own answer or a
    deadline row, successes first. The clock runs: every schedule reaches the deadline in the end.
  */
  method FanOutAgg(nodes: seq<string>, waitAll: bool, outcomes: seq<Outcome>, rounds: seq<Round>)
    returns (rows: seq<Row>, ghost stop: nat, ghost answered: seq<int>, ghost cancelled: seq<int>)
    requires rounds != [] && rounds[|rounds| - 1].expired
    ensures stop < |rounds| && Stops(rounds, stop, outcomes, |nodes|, waitAll)
    ensures forall k :: 0 <= k < stop ==> !Stops(rounds, k, outcomes, |nodes|, waitAll)
    ensures AnsweredBy(answered, rounds, stop, |nodes|)
    ensures multiset(answered) + multiset(cancelled) == multiset(Upto(|nodes|))
    ensures multiset(rows) == multiset(RowsFor(nodes, outcomes, answered, cancelled))
    ensures forall i, j :: 0 <= i < j < |rows| && rows[j].ok ==> rows[i].ok
    ensures cancelled != [] ==>
              rounds[stop].expired || (!waitAll && SomeSuccess(rounds, stop, outcomes, |nodes|))
  {
    hide Mapped, Upto, RowsFor, AllDone, SomeSuccess, Tallied, Stops, AnsweredBy;
    var results: seq<Row> := [];
    var pending := Upto(|nodes|);
    answered, cancelled := [], [];
    NothingYet(nodes, outcomes, rounds);
    var next := 0;
    while |pending| > 0
      invariant 0 <= next < |rounds|
      invariant forall k :: 0 <= k < next ==> !Stops(rounds, k, outcomes, |nodes|, waitAll)
      invariant Tallied(results, answered, pending, nodes, outcomes) && AnsweredBy(answered, rounds, next, |nodes|)
      invariant !waitAll ==> !SomeSuccess(rounds, next, outcomes, |nodes|)
      decreases |rounds| - next
    {
      var round := rounds[next];
      if round.expired {
        break;
      }
      NotYet(rounds, next, outcomes, waitAll, answered, pending, results, nodes);
      ghost var before := answered;
      results, pending, answered := Collect(round.done, nodes, outcomes, results, pending, answered);
      next := next + 1;
      OneRoundMore(rounds, next, before, answered, |nodes|);
      SuccessShows(rounds, next, answered, pending, results, nodes, outcomes);
      if !waitAll && |pending| > 0 && exists r :: r in results && r.ok {
        break;
      }
      if |pending| == 0 {
        break;
      }
    }
    stop := next;
    Bookkept(results, answered, pending, nodes, outcomes);
    Ended(rounds, stop, answered, pending, |nodes|);
    WhyEnded(rounds, stop, outcomes, |nodes|, waitAll);
    cancelled := pending;
    var all := Cancel(results, pending, nodes, outcomes, answered);
    PartitionKeeps(all);
    rows := Succeeded(all) + NotSucceeded(all);
  }

  /** With a task pending, before the deadline and without a sufficient success, waiting goes on. */
  lemma NotYet(rounds: seq<Round>, k: nat, outcomes: seq<Outcome>, waitAll: bool, answered: seq<int>,
               pending: seq<int>, results: seq<Row>, nodes: seq<string>)
    requires k < |rounds| && !rounds[k].expired && pending != []
    requires !waitAll ==> !SomeSuccess(rounds, k, outcomes, |nodes|)
    requires Tallied(results, answered, pending, nodes, outcomes) && AnsweredBy(answered, rounds, k, |nodes|)
    ensures !Stops(rounds, k, outcomes, |nodes|, waitAll)
  {
    hide SomeSuccess, DoneBy, RowsFor;
    PendingOrAnswered(answered, pending, |nodes|);
    var t := pending[0];
    assert t in pending;
    assert !DoneBy(rounds, k, t);
  }

  lemma OneRoundMore(rounds: seq<Round>, k: nat, before: seq<int>, after: seq<int>, n: nat)
    requires 0 < k <= |rounds| && AnsweredBy(before, rounds, k - 1, n)
    requires forall t :: t in after <==> t in before || (0 <= t < n && t in rounds[k - 1].done)
    ensures AnsweredBy(after, rounds, k, n)
  {
    forall t ensures t in after <==> 0 <= t < n && DoneBy(rounds, k, t) {
      if t in rounds[k - 1].done {
        assert DoneBy(rounds, k, t);
      }
      if DoneBy(rounds, k, t) {
        var j :| 0 <= j < k && t in rounds[j].done;
        assert j < k - 1 ==> DoneBy(rounds, k - 1, t);
      }
      if DoneBy(rounds, k - 1, t) {
        var j :| 0 <= j < k - 1 && t in rounds[j].done;
        assert DoneBy(rounds, k, t);
      }
    }
  }

  lemma {:induction false} InMapped<T, U>(s: seq<T>, f: T -> U, u: U)
    ensures u in Mapped(s, f) <==> exists t :: t in s && f(t) == u
  {
    if s != [] {
      InMapped(s[1..], f, u);
      assert s == [s[0]] + s[1..];
      if u in Mapped(s[1..], f) {
        var t :| t in s[1..] && f(t) == u;
        assert t in s;
      }
      assert s[0] in s;
    }
  }

  /** A success shows among the results exactly if a task reported done has succeeded. */
  lemma SuccessShows(rounds: seq<Round>, k: nat, answered: seq<int>, pending: seq<int>, results: seq<Row>,
                     nodes: seq<string>, outcomes: seq<Outcome>)
    requires k <= |rounds| && AnsweredBy(answered, rounds, k, |nodes|)
    requires Tallied(results, answered, pending, nodes, outcomes)
    ensures (exists r :: r in results && r.ok) <==> SomeSuccess(rounds, k, outcomes, |nodes|)
  {
    hide DoneBy, Mapped;
    var f := (t: int) => AnswerRow(nodes, outcomes, t);
    MappedNone((t: int) => DeadlineRow(nodes, t));
    assert results == Mapped(answered, f);
    if r :| r in results && r.ok {
      InMapped(answered, f, r);
      var t :| t in answered && f(t) == r;
      assert Succeeds(outcomes, t) && DoneBy(rounds, k, t);
    }
    if SomeSuccess(rounds, k, outcomes, |nodes|) {
      var t :| 0 <= t < |nodes| && DoneBy(rounds, k, t) && Succeeds(outcomes, t);
      InMapped(answered, f, f(t));
      assert f(t) in results && f(t).ok;
    }
  }

  lemma {:induction false} Bookkept(
    results: seq<Row>, answered: seq<int>, pending: seq<int>, nodes: seq<string>, outcomes: seq<Outcome>)
    requires Tallied(results, answered, pending, nodes, outcomes)
    ensures multiset(answered) + multiset(pending) == multiset(Upto(|nodes|))
  {}

  lemma WhyEnded(rounds: seq<Round>, k: nat, outcomes: seq<Outcome>, n: nat, waitAll: bool)
    requires k < |rounds|
    ensures Stops(rounds, k, outcomes, n, waitAll) <==>
            AllDone(rounds, k, n) || rounds[k].expired || (!waitAll && SomeSuccess(rounds, k, outcomes, n))
  {}

  /** With nothing pending everything is done. */
  lemma {:induction false} Ended(rounds: seq<Round>, k: nat, answered: seq<int>, pending: seq<int>, n: nat)
    requires k <= |rounds| && AnsweredBy(answered, rounds, k, n)
    requires multiset(answered) + multiset(pending) == multiset(Upto(n))
    ensures pending == [] ==> AllDone(rounds, k, n)
    ensures pending != [] ==> !AllDone(rounds, k, n)
  {
    hide DoneBy, Upto;
    PendingOrAnswered(answered, pending, n);
    if pending != [] {
      assert pending[0] in pending;
      assert !DoneBy(rounds, k, pending[0]);
    } else {
      assert forall t :: t !in pending;
    }
  }

  lemma {:induction false} NothingYet(nodes: seq<string>, outcomes: seq<Outcome>, rounds: seq<Round>)
    ensures Tallied([], [], Upto(|nodes|), nodes, outcomes) && AnsweredBy([], rounds, 0, |nodes|)
    ensures !SomeSuccess(rounds, 0, outcomes, |nodes|)
  {}

  lemma {:induction false} AllNodes(nodes: seq<string>, n: nat)
    requires n <= |nodes|
    ensures Mapped(Upto(n), (t: int) => NodeAt(nodes, t)) == nodes[..n]
  {
    if n > 0 {
      AllNodes(nodes, n - 1);
      MappedOfConcat(Upto(n - 1), [n - 1], (t: int) => NodeAt(nodes, t));
      MappedOne(n - 1, (t: int) => NodeAt(nodes, t));
    }
  }

  lemma {:induction false} NamesOfAnswers(nodes: seq<string>, outcomes: seq<Outcome>, tasks: seq<int>)
    ensures Mapped(Mapped(tasks, (t: int) => AnswerRow(nodes, outcomes, t)), (r: Row) => r.node)
        == Mapped(tasks, (t: int) => NodeAt(nodes, t))
  {
    if tasks != [] {
      NamesOfAnswers(nodes, outcomes, tasks[1..]);
      var rest := Mapped(tasks[1..], (t: int) => AnswerRow(nodes, outcomes, t));
      assert ([AnswerRow(nodes, outcomes, tasks[0])] + rest)[1..] == rest;
    }
  }

  lemma {:induction false} NamesOfDeadlines(nodes: seq<string>, tasks: seq<int>)
    ensures Mapped(Mapped(tasks, (t: int) => DeadlineRow(nodes, t)), (r: Row) => r.node)
        == Mapped(tasks, (t: int) => NodeAt(nodes, t))
  {
    if tasks != [] {
      NamesOfDeadlines(nodes, tasks[1..]);
      var rest := Mapped(tasks[1..], (t: int) => DeadlineRow(nodes, t));
      assert ([DeadlineRow(nodes, tasks[0])] + rest)[1..] == rest;
    }
  }

  /** Conservation by name: the rows name exactly the requested nodes, each as often as it was requested. */
  lemma RowsNameNodes(nodes: seq<string>, outcomes: seq<Outcome>, rows: seq<Row>, answered: seq<int>,
                      cancelled: seq<int>)
    requires multiset(answered) + multiset(cancelled) == multiset(Upto(|nodes|))
    requires multiset(rows) == multiset(RowsFor(nodes, outcomes, answered, cancelled))
    ensures multiset(Mapped(rows, (r: Row) => r.node)) == multiset(nodes)
  {
    hide Mapped, Upto;
    var name := (r: Row) => r.node;
    var node := (t: int) => NodeAt(nodes, t);
    var a, c := Mapped(answered, (t: int) => AnswerRow(nodes, outcomes, t)), Mapped(cancelled,
        (t: int) => DeadlineRow(nodes, t));
    SameImage(rows, a + c, name);
    MappedOfConcat(a, c, name);
    NamesOfAnswers(nodes, outcomes, answered);
    NamesOfDeadlines(nodes, cancelled);
    MappedOfConcat(answered, cancelled, node);
    SameImage(answered + cancelled, Upto(|nodes|), node);
    AllNodes(nodes, |nodes|);
    assert nodes[..|nodes|] == nodes;
  }

  /** The row tells how that node's task ended: with its own verdict, with an error, or at the deadline. */
  predicate Tells(r: Row, node: string, outcome: Outcome, answered: bool) {
    && r.node == node
    && r.ok == (answered && outcome == Replied(true))
    && r.why == if !answered then Deadline else if outcome.Raised? then TaskError else Reply
  }

  /** Every row tells the truth about a task, and every task has such a row. */
  lemma {:induction false} RowsTell(nodes: seq<string>, outcomes: seq<Outcome>, rows: seq<Row>, answered: seq<int>,
                                    cancelled: seq<int>)
    requires |outcomes| == |nodes| && multiset(answered) + multiset(cancelled) == multiset(Upto(|nodes|))
    requires multiset(rows) == multiset(RowsFor(nodes, outcomes, answered, cancelled))
    ensures forall r :: r in rows ==> exists t :: 0 <= t < |nodes| && Tells(r, nodes[t], outcomes[t], t in answered)
    ensures forall t :: 0 <= t < |nodes| ==> exists r :: r in rows && Tells(r, nodes[t], outcomes[t], t in answered)
  {
    hide Mapped, Upto;
    var a, d := (t: int) => AnswerRow(nodes, outcomes, t), (t: int) => DeadlineRow(nodes, t);
    PendingOrAnswered(answered, cancelled, |nodes|);
    forall r | r in rows
      ensures exists t :: 0 <= t < |nodes| && Tells(r, nodes[t], outcomes[t], t in answered)
    {
      assert r in multiset(rows);
      InMapped(answered, a, r);
      InMapped(cancelled, d, r);
      if i :| 0 <= i < |answered| && a(answered[i]) == r {
        var t := answered[i];
        assert t in answered && Tells(r, nodes[t], outcomes[t], t in answered);
      } else {
        var i :| 0 <= i < |cancelled| && d(cancelled[i]) == r;
        var t := cancelled[i];
        assert t in cancelled && Tells(r, nodes[t], outcomes[t], t in answered);
      }
    }
    forall t | 0 <= t < |nodes|
      ensures exists r :: r in rows && Tells(r, nodes[t], outcomes[t], t in answered)
    {
      if t in answered {
        var i :| 0 <= i < |answered| && answered[i] == t;
        InMapped(answered, a, a(t));
        assert a(t) in multiset(rows) && Tells(a(t), nodes[t], outcomes[t], true);
      } else {
        assert t in cancelled;
        var i :| 0 <= i < |cancelled| && cancelled[i] == t;
        InMapped(cancelled, d, d(t));
        assert d(t) in multiset(rows) && Tells(d(t), nodes[t], outcomes[t], false);
      }
    }
  }
}
