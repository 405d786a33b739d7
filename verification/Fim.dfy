/**
  File integrity: a baseline of file hashes, changed by watcher handlers and by periodic scans, and the
  journal of events that both emit. Paths are compared without case; a `Path` is such an equivalence class.
*/
module Fim {
  import opened Wrappers

  datatype Path = Path(folded: string)
  type Hash = string
  type Baseline = map<Path, Hash>

  datatype Event =
    | Created(path: Path, after: Hash)
    | Modified(path: Path, before: Option<Hash>, now: Hash)
    | Deleted(path: Path, before: Option<Hash>)
    | Renamed(path: Path, from: Path, before: Option<Hash>, hash: Option<Hash>)

  function Get(b: Baseline, p: Path): Option<Hash> {
    if p in b then Some(b[p]) else None
  }

  function Put(b: Baseline, p: Path, h: Option<Hash>): Baseline {
    match h
    case None => b
    case Some(v) => b[p := v]
  }

  /** What a reader of the journal does with an event. */
  function Apply(b: Baseline, e: Event): Baseline {
    match e
    case Created(p, h) => b[p := h]
    case Modified(p, _, h) => b[p := h]
    case Deleted(p, _) => b - {p}
    case Renamed(p, from, _, h) => Put(b - {from}, p, h)
  }

  function Replay(b: Baseline, journal: seq<Event>): Baseline {
    if journal == [] then b else Apply(Replay(b, journal[..|journal| - 1]), journal[|journal| - 1])
  }

  lemma {:induction false} ReplayConcat(b: Baseline, j: seq<Event>, k: seq<Event>)
    ensures Replay(b, j + k) == Replay(Replay(b, j), k)
    decreases |k|
  {
    if k == [] {
      assert j + k == j;
    } else {
      var n := |k| - 1;
      ReplayConcat(b, j, k[..n]);
      assert (j + k)[..|j + k| - 1] == j + k[..n];
    }
  }

  /** What an event says the journal's subject was before it. */
  predicate SaysTruth(e: Event, b: Baseline) {
    match e
    case Created(p, _) => Get(b, p) == None
    case Modified(p, before, _) => Get(b, p) == before
    case Deleted(p, before) => Get(b, p) == before
    case Renamed(_, from, before, _) => Get(b, from) == before
  }

  /** Each event's "before" is the hash that the journal so far gives. */
  predicate TrueHistory(b: Baseline, journal: seq<Event>) {
    journal == [] || (
      var n := |journal| - 1;
      TrueHistory(b, journal[..n]) && SaysTruth(journal[n], Replay(b, journal[..n])))
  }

  lemma {:induction false} HistoryConcat(b: Baseline, j: seq<Event>, k: seq<Event>)
    ensures TrueHistory(b, j + k) <==> TrueHistory(b, j) && TrueHistory(Replay(b, j), k)
    decreases |k|
  {
    hide Apply, SaysTruth;
    if k == [] {
      assert j + k == j;
    } else {
      var n := |k| - 1;
      HistoryConcat(b, j, k[..n]);
      ReplayConcat(b, j, k[..n]);
      assert (j + k)[..|j + k| - 1] == j + k[..n];
    }
  }

  // ---------------------------------------------------------------- scans

  /** The file system as a scan sees it: what it lists, the hash of each file it can open, and what exists. */
  datatype Files = Files(listed: set<Path>, hashes: map<Path, Hash>, present: set<Path>)

  /** The baseline a scan should leave: listed files that open are as on disk; what is gone is gone. */
  function Scanned(b: Baseline, fs: Files): Baseline {
    map p | p in b.Keys + (fs.listed * fs.hashes.Keys)
        && (p in fs.listed || p in fs.present)
      :: if p in fs.listed && p in fs.hashes then fs.hashes[p] else b[p]
  }

  /** The event tells one real difference between two baselines. */
  predicate Tells(e: Event, b: Baseline, b': Baseline) {
    match e
    case Created(p, h) => Get(b, p) == None && Get(b', p) == Some(h)
    case Modified(p, before, h) => before.Some? && Get(b, p) == before && before != Some(h) && Get(b', p) == Some(h)
    case Deleted(p, before) => before.Some? && Get(b, p) == before && Get(b', p) == None
    case Renamed(_, _, _, _) => false
  }

  predicate AllTell(events: seq<Event>, b: Baseline, b': Baseline) {
    forall e :: e in events ==> Tells(e, b, b')
  }

  predicate OncePerPath(events: seq<Event>) {
    forall i, j :: 0 <= i < j < |events| ==> events[i].path != events[j].path
  }

  function PathsOf(events: seq<Event>): set<Path> {
    set e | e in events :: e.path
  }

  /** The paths on which the baselines differ. */
  function Changed(b: Baseline, b': Baseline): set<Path> {
    set p | p in b.Keys + b'.Keys && Get(b, p) != Get(b', p)
  }

  /** The events tell exactly the differences, each path once. */
  predicate ExactDiff(events: seq<Event>, b: Baseline, b': Baseline) {
    AllTell(events, b, b') && OncePerPath(events) && PathsOf(events) == Changed(b, b')
  }

  lemma {:induction false} DiffPrefix(events: seq<Event>, k: nat, b: Baseline, b': Baseline, p: Path)
    requires k <= |events| && AllTell(events, b, b') && OncePerPath(events)
    ensures Get(Replay(b, events[..k]), p) == Get(if p in PathsOf(events[..k]) then b' else b, p)
    decreases k
  {
    if k > 0 {
      DiffPrefix(events, k - 1, b, b', p);
      assert events[..k][..k - 1] == events[..k - 1];
      var e := events[k - 1];
      assert e in events && Tells(e, b, b');
      assert events[..k] == events[..k - 1] + [e];
      assert e in events[..k];
    }
  }

  /** Replaying an exact difference on the one baseline gives the other, and tells the truth all the way. */
  lemma {:induction false} DiffReplays(events: seq<Event>, b: Baseline, b': Baseline)
    requires ExactDiff(events, b, b')
    ensures Replay(b, events) == b' && TrueHistory(b, events)
  {
    forall p ensures Get(Replay(b, events), p) == Get(b', p) {
      DiffPrefix(events, |events|, b, b', p);
      assert events[..|events|] == events;
    }
    SameLookups(Replay(b, events), b');
    DiffTrue(events, |events|, b, b');
    assert events[..|events|] == events;
  }

  lemma SameLookups(a: Baseline, b: Baseline)
    requires forall p :: Get(a, p) == Get(b, p)
    ensures a == b
  {
    forall p ensures (p in a <==> p in b) && (p in a ==> a[p] == b[p]) {
      assert Get(a, p) == Get(b, p);
    }
  }

  lemma {:induction false} DiffTrue(events: seq<Event>, k: nat, b: Baseline, b': Baseline)
    requires k <= |events| && AllTell(events, b, b') && OncePerPath(events)
    ensures TrueHistory(b, events[..k])
    decreases k
  {
    hide Replay;
    if k > 0 {
      DiffTrue(events, k - 1, b, b');
      var e := events[k - 1];
      DiffPrefix(events, k - 1, b, b', e.path);
      assert e in events && Tells(e, b, b');
      assert events[..k][..k - 1] == events[..k - 1];
    }
  }

  /** A scan is silent exactly if the baseline already agrees with the file system. */
  lemma SilentExactly(events: seq<Event>, b: Baseline, fs: Files)
    requires ExactDiff(events, b, Scanned(b, fs))
    ensures events == [] <==>
            && (forall p :: p in fs.listed && p in fs.hashes ==> Get(b, p) == Some(fs.hashes[p]))
            && (forall p :: p in b ==> p in fs.listed || p in fs.present)
  {
    var b' := Scanned(b, fs);
    assert events == [] <==> Changed(b, b') == {} by {
      if events != [] {
        assert events[0].path in PathsOf(events);
      }
    }
    if Changed(b, b') == {} {
      forall p | p in fs.listed && p in fs.hashes ensures Get(b, p) == Some(fs.hashes[p]) {
        assert p !in Changed(b, b') && p in b';
      }
      forall p | p in b ensures p in fs.listed || p in fs.present {
        assert p !in Changed(b, b');
      }
    }
  }

  /** A second scan of an unchanged file system emits nothing. */
  lemma SecondScanSilent(b: Baseline, fs: Files, again: seq<Event>)
    requires ExactDiff(again, Scanned(b, fs), Scanned(Scanned(b, fs), fs))
    ensures again == []
  {
    SilentExactly(again, Scanned(b, fs), fs);
  }

  /** The baseline built at the first start makes the first scan of the same files silent. */
  lemma FirstScanSilent(fs: Files, events: seq<Event>)
    requires ExactDiff(events, Scanned(map[], fs), Scanned(Scanned(map[], fs), fs))
    ensures events == [] && Scanned(map[], fs).Keys == fs.listed * fs.hashes.Keys
  {
    SilentExactly(events, Scanned(map[], fs), fs);
  }

  // ---------------------------------------------------------------- watcher handlers and whole runs

  const DEBOUNCE := 20_000_000       // 2 s, in ticks
  const FORGET := 3_000_000_000      // 5 min, in ticks

  datatype Handled = Handled(path: Path, at: int)

  /** What the program remembers, and the journal it has written. */
  datatype Memory = Memory(baseline: Baseline, journal: seq<Event>, recent: map<Path, int>)

  /** `handled` lists the notifications that were not turned away, `clock` is the last time read. */
  datatype State = State(mem: Memory, handled: seq<Handled>, clock: int)

  datatype Notice =
    | FileCreated(path: Path, hash: Option<Hash>)
    | FileChanged(path: Path, hash: Option<Hash>)
    | FileDeleted(path: Path)
    | FileRenamed(path: Path, oldPath: Path, hash: Option<Hash>)

  /** The event that a handler emits for a notice, if any. */
  function EventFor(n: Notice, b: Baseline): Option<Event> {
    match n
    case FileCreated(p, h) => if h.Some? then Some(Created(p, h.value)) else None
    case FileChanged(p, h) => if h.Some? && h != Get(b, p) then Some(Modified(p, Get(b, p), h.value)) else None
    case FileDeleted(p) => Some(Deleted(p, Get(b, p)))
    case FileRenamed(p, from, h) => Some(Renamed(p, from, Get(b, from), h))
  }

  /** `watched` says that the baseline is ready and the path is a watched one and not excluded. */
  datatype Action =
    | Notify(notice: Notice, watched: bool, at: int)
    | Scan(fs: Files, events: seq<Event>)
    | Cleanup(at: int)

  predicate Debounced(recent: map<Path, int>, p: Path, at: int) {
    p in recent && at - recent[p] < DEBOUNCE
  }

  predicate Heard(m: Memory, a: Action) {
    a.Notify? && a.watched && !Debounced(m.recent, a.notice.path, a.at)
  }

  function Emits(m: Memory, a: Action): seq<Event> {
    match a
    case Notify(n, _, _) =>
      if Heard(m, a) then match EventFor(n, m.baseline) case Some(e) => [e] case None => [] else []
    case Scan(_, events) => events
    case Cleanup(_) => []
  }

  function Kept(recent: map<Path, int>, at: int): map<Path, int> {
    map p | p in recent && !(recent[p] < at - FORGET) :: recent[p]
  }

  function BaselineAfter(n: Notice, b: Baseline): Baseline {
    match n
    case FileCreated(p, h) => Put(b, p, h)
    case FileChanged(p, h) => Put(b, p, h)
    case FileDeleted(p) => b - {p}
    case FileRenamed(p, from, h) => Put(b - {from}, p, h)
  }

  function After(m: Memory, a: Action): Memory {
    match a
    case Notify(n, _, at) =>
      if Heard(m, a) then Memory(BaselineAfter(n, m.baseline), m.journal + Emits(m, a), m.recent[n.path := at]) else m
    case Scan(fs, events) => m.(baseline := Scanned(m.baseline, fs), journal := m.journal + events)
    case Cleanup(at) => m.(recent := Kept(m.recent, at))
  }

  /**
    Exactly what a handled notice does: a file reported as created is entered and told if it can be read; a change is
    told if the hash is not the one on record; a deletion takes the file off the record; a renaming moves it, to the
    new hash if there is one. What is told has the hashes of the record.
  */
  lemma NoticesExactly(m: Memory, n: Notice, at: int)
    requires !Debounced(m.recent, n.path, at)
    ensures var e := After(m, Notify(n, true, at));
            var was, told := Get(m.baseline, n.path), e.journal[|m.journal|..];
            && m.journal <= e.journal && e.recent == m.recent[n.path := at]
            && match n
               case FileCreated(p, hash) =>
                 && told == (if hash.Some? then [Created(p, hash.value)] else [])
                 && e.baseline == if hash.Some? then m.baseline[p := hash.value] else m.baseline
               case FileChanged(p, hash) =>
                 && told == (if hash.Some? && hash != was then [Modified(p, was, hash.value)] else [])
                 && e.baseline == if hash.Some? then m.baseline[p := hash.value] else m.baseline
               case FileDeleted(p) => told == [Deleted(p, was)] && e.baseline == m.baseline - {p}
               case FileRenamed(p, oldPath, hash) =>
                 && told == [Renamed(p, oldPath, Get(m.baseline, oldPath), hash)]
                 && var moved := m.baseline - {oldPath};
                    e.baseline == if hash.Some? then moved[p := hash.value] else moved
  {}

  predicate Step(s: State, a: Action, s': State) {
    && s'.mem == After(s.mem, a)
    && s'.handled == (if Heard(s.mem, a) then s.handled + [Handled(a.notice.path, a.at)] else s.handled)
    && if a.Scan? then s'.clock == s.clock && ExactDiff(a.events, s.mem.baseline, s'.mem.baseline)
       else s.clock <= a.at == s'.clock
  }

  ghost predicate Run(states: seq<State>, actions: seq<Action>) {
    && |states| == |actions| + 1
    && states[0].mem.journal == [] && states[0].mem.recent == map[] && states[0].handled == []
    && forall i :: 0 <= i < |actions| ==> Step(states[i], actions[i], states[i + 1])
  }

  lemma StepReplays(s: State, a: Action, s': State)
    requires Step(s, a, s')
    ensures s'.mem.journal == s.mem.journal + Emits(s.mem, a)
    ensures Replay(s.mem.baseline, Emits(s.mem, a)) == s'.mem.baseline
  {
    match a
    case Notify(n, _, _) =>
      var es := Emits(s.mem, a);
      if es != [] {
        assert es[..0] == [];
        assert Replay(s.mem.baseline, es) == Apply(s.mem.baseline, es[0]);
      } else if Heard(s.mem, a) {
        assert BaselineAfter(n, s.mem.baseline) == s.mem.baseline;
      }
    case Scan(fs, events) => DiffReplays(events, s.mem.baseline, s'.mem.baseline);
    case Cleanup(_) =>
  }

  /** The journal is faithful: after any run, replaying it on the initial baseline gives the current one. */
  lemma {:induction false} JournalFaithful(states: seq<State>, actions: seq<Action>)
    requires Run(states, actions)
    ensures Replay(states[0].mem.baseline, states[|actions|].mem.journal) == states[|actions|].mem.baseline
    decreases |actions|
  {
    hide Step, Replay, Emits;
    var n := |actions| - 1;
    if actions == [] {
      assert Replay(states[0].mem.baseline, []) == states[0].mem.baseline by { AtStart(states[0].mem.baseline); }
    } else {
      Shorter(states, actions);
      JournalFaithful(states[..n + 1], actions[..n]);
      StepReplays(states[n], actions[n], states[n + 1]);
      ReplayConcat(states[0].mem.baseline, states[n].mem.journal, Emits(states[n].mem, actions[n]));
    }
  }

  lemma {:induction false} AtStart(b: Baseline)
    ensures Replay(b, []) == b && TrueHistory(b, [])
  {}

  lemma Shorter(states: seq<State>, actions: seq<Action>)
    requires Run(states, actions) && actions != []
    ensures Run(states[..|actions|], actions[..|actions| - 1])
  {
    hide Step;
    var n := |actions| - 1;
    forall i | 0 <= i < n ensures Step(states[..|actions|][i], actions[..n][i], states[..|actions|][i + 1]) {
      assert Step(states[i], actions[i], states[i + 1]);
    }
  }

  /** A handler says "created" about a path that the baseline already holds. */
  predicate Recreates(m: Memory, a: Action) {
    Heard(m, a) && a.notice.FileCreated? && a.notice.hash.Some? && a.notice.path in m.baseline
  }

  lemma StepHistory(s: State, a: Action, s': State)
    requires Step(s, a, s')
    ensures TrueHistory(s.mem.baseline, Emits(s.mem, a)) <==> !Recreates(s.mem, a)
  {
    match a
    case Notify(n, _, _) =>
      var es := Emits(s.mem, a);
      if es != [] {
        assert es[..0] == [];
        assert Replay(s.mem.baseline, es[..0]) == s.mem.baseline;
        assert TrueHistory(s.mem.baseline, es) <==> SaysTruth(es[0], s.mem.baseline);
      }
    case Scan(fs, events) => DiffReplays(events, s.mem.baseline, s'.mem.baseline);
    case Cleanup(_) =>
  }

  /**
    The "before" hashes in the journal are those the journal itself gives, exactly if no watcher reported as
    created a file that the baseline already held.
  */
  lemma {:induction false} HistoryTrueExactly(states: seq<State>, actions: seq<Action>)
    requires Run(states, actions)
    ensures TrueHistory(states[0].mem.baseline, states[|actions|].mem.journal) <==>
            forall i :: 0 <= i < |actions| ==> !Recreates(states[i].mem, actions[i])
    decreases |actions|
  {
    hide Step, Replay, Emits, TrueHistory, Recreates;
    var n := |actions| - 1;
    var b := states[0].mem.baseline;
    if actions == [] {
      AtStart(b);
    } else {
      Shorter(states, actions);
      HistoryTrueExactly(states[..n + 1], actions[..n]);
      JournalFaithful(states[..n + 1], actions[..n]);
      var before := forall i :: 0 <= i < n ==> !Recreates(states[..n + 1][i].mem, actions[..n][i]);
      assert before <==> forall i :: 0 <= i < n ==> !Recreates(states[i].mem, actions[i]) by {
        assert forall i :: 0 <= i < n ==> states[..n + 1][i] == states[i] && actions[..n][i] == actions[i];
      }
      StepReplays(states[n], actions[n], states[n + 1]);
      StepHistory(states[n], actions[n], states[n + 1]);
      HistoryConcat(b, states[n].mem.journal, Emits(states[n].mem, actions[n]));
    }
  }

  /** That happens: a watcher reports as created a file that is in the baseline. */
  lemma HistoryCanLie(p: Path, was: Hash, h: Hash, at: int)
    ensures var s := State(Memory(map[p := was], [], map[]), [], at);
            var a := Notify(FileCreated(p, Some(h)), true, at);
            var e := State(After(s.mem, a), [Handled(p, at)], at);
            Run([s, e], [a]) && !TrueHistory(s.mem.baseline, e.mem.journal)
  {
    var s := State(Memory(map[p := was], [], map[]), [], at);
    var a := Notify(FileCreated(p, Some(h)), true, at);
    var e := State(After(s.mem, a), [Handled(p, at)], at);
    assert Step(s, a, e);
    assert [s, e][0 + 1] == e && Recreates(s.mem, a);
    HistoryTrueExactly([s, e], [a]);
    assert Recreates([s, e][0].mem, [a][0]);
  }

  // ---------------------------------------------------------------- debouncing

  /** Every handled notice is remembered with a time no earlier, or is too old to matter. */
  predicate Remembered(s: State) {
    && (forall h :: h in s.handled ==>
          h.at <= s.clock && ((h.path in s.mem.recent && h.at <= s.mem.recent[h.path]) || h.at < s.clock - FORGET))
  }

  predicate Spaced(handled: seq<Handled>) {
    forall i, j :: 0 <= i < j < |handled| && handled[i].path == handled[j].path ==>
                     handled[j].at - handled[i].at >= DEBOUNCE
  }

  lemma StepSpaced(s: State, a: Action, s': State)
    requires Remembered(s) && Spaced(s.handled) && Step(s, a, s')
    ensures Remembered(s') && Spaced(s'.handled)
  {
    hide ExactDiff, Scanned, BaselineAfter, Emits;
    if Heard(s.mem, a) {
      forall i | 0 <= i < |s.handled| && s.handled[i].path == a.notice.path
        ensures a.at - s.handled[i].at >= DEBOUNCE
      {
        assert s.handled[i] in s.handled;
      }
    }
  }

  /** Two notices handled for one path are at least two seconds apart, however cleanups fall. */
  lemma {:induction false} HandledSpaced(states: seq<State>, actions: seq<Action>)
    requires Run(states, actions)
    ensures Spaced(states[|actions|].handled) && Remembered(states[|actions|])
    decreases |actions|
  {
    hide Step, Spaced, Remembered;
    if actions == [] {
      NothingHandled(states[0]);
    } else {
      var n := |actions| - 1;
      Shorter(states, actions);
      HandledSpaced(states[..n + 1], actions[..n]);
      StepSpaced(states[n], actions[n], states[n + 1]);
    }
  }

  lemma NothingHandled(s: State)
    requires s.handled == []
    ensures Spaced(s.handled) && Remembered(s)
  {}

  /** What is remembered of a path is a notice that was handled. */
  predicate Grounded(s: State) {
    forall p :: p in s.mem.recent ==> Handled(p, s.mem.recent[p]) in s.handled
  }

  lemma {:induction false} RunGrounded(states: seq<State>, actions: seq<Action>)
    requires Run(states, actions)
    ensures Grounded(states[|actions|])
    decreases |actions|
  {
    if actions != [] {
      var n := |actions| - 1;
      Shorter(states, actions);
      RunGrounded(states[..n + 1], actions[..n]);
      assert Step(states[n], actions[n], states[n + 1]);
      StepGrounded(states[n], actions[n], states[n + 1]);
    }
  }

  lemma StepGrounded(s: State, a: Action, s': State)
    requires Grounded(s) && Step(s, a, s')
    ensures Grounded(s')
  {
    hide ExactDiff, Scanned, BaselineAfter, Emits;
    forall p | p in s'.mem.recent
      ensures Handled(p, s'.mem.recent[p]) in s'.handled
    {
      if !(Heard(s.mem, a) && p == a.notice.path) {
        assert Handled(p, s.mem.recent[p]) in s.handled;
      }
    }
  }

  /**
    After any run, whatever was cleaned up: a notice of a watched path is handled exactly if no notice of that path was
    handled in the two seconds before.
  */
  lemma {:induction false} HeardExactly(states: seq<State>, actions: seq<Action>, n: Notice, at: int)
    requires Run(states, actions) && states[|actions|].clock <= at
    ensures var s := states[|actions|];
            Heard(s.mem, Notify(n, true, at)) <==>
            forall h :: h in s.handled && h.path == n.path ==> at - h.at >= 2 * 10_000_000
    ensures !Heard(states[|actions|].mem, Notify(n, false, at))
  {
    hide Step, Spaced;
    HandledSpaced(states, actions);
    RunGrounded(states, actions);
  }

  // ---------------------------------------------------------------- the class

  class FileIntegrityInput {
    var baseline: Baseline
    var recentEvents: map<Path, int>
    var journal: seq<Event>

    constructor ()
      ensures baseline == map[] && recentEvents == map[] && journal == []
    {
      baseline, recentEvents, journal := map[], map[], [];
    }

    /** The stored baseline if it loads, or one built from the listed files, silently. */
    method InitializeBaseline(stored: Option<Baseline>, files: seq<Path>, fs: Files)
      requires fs.listed == (set f | f in files) && baseline == map[]
      modifies this`baseline
      ensures baseline == if stored.Some? then stored.value else Scanned(map[], fs)
    {
      if stored.Some? {
        baseline := stored.value;
        return;
      }
      for i := 0 to |files|
        invariant forall p :: Get(baseline, p) == if p in files[..i] && p in fs.hashes then Some(fs.hashes[p]) else None
      {
        var file := files[i];
        assert files[..i + 1] == files[..i] + [file];
        if file in fs.hashes {
          baseline := baseline[file := fs.hashes[file]];
        }
      }
      assert files[..|files|] == files;
      SameLookups(baseline, Scanned(map[], fs));
    }

    method ShouldDebounce(path: Path, now: int) returns (handle: bool)
      modifies this`recentEvents
      ensures handle == !Debounced(old(recentEvents), path, now)
      ensures recentEvents == if handle then old(recentEvents)[path := now] else old(recentEvents)
    {
      if path in recentEvents {
        if now - recentEvents[path] < DEBOUNCE {
          return false;
        }
      }
      recentEvents := recentEvents[path := now];
      return true;
    }

    method CleanupRecentEvents(now: int)
      modifies this`recentEvents
      ensures recentEvents == Kept(old(recentEvents), now)
      ensures forall p :: p in recentEvents <==>
                            p in old(recentEvents) && now - old(recentEvents[p]) <= 5 * 60 * 10_000_000
    {
      var was := recentEvents;
      var rest := was.Keys;
      while rest != {}
        invariant rest <= was.Keys
        invariant recentEvents == map p | p in was && (p in rest || !(was[p] < now - FORGET)) :: was[p]
        decreases rest
      {
        var p :| p in rest;
        if was[p] < now - FORGET {
          recentEvents := recentEvents - {p};
        }
        rest := rest - {p};
      }
    }

    ghost function Mem(): Memory
      reads this
    {
      Memory(baseline, journal, recentEvents)
    }

    method OnFileCreated(path: Path, hash: Option<Hash>, watched: bool, now: int)
      modifies this
      ensures Mem() == After(old(Mem()), Notify(FileCreated(path, hash), watched, now))
    {
      var handle := false;
      if watched {
        handle := ShouldDebounce(path, now);
      }
      if handle && hash.Some? {
        baseline := baseline[path := hash.value];
        journal := journal + [Created(path, hash.value)];
      }
    }

    method OnFileChanged(path: Path, newHash: Option<Hash>, watched: bool, now: int)
      modifies this
      ensures Mem() == After(old(Mem()), Notify(FileChanged(path, newHash), watched, now))
    {
      var handle := false;
      if watched {
        handle := ShouldDebounce(path, now);
      }
      if handle {
        var oldHash := Get(baseline, path);
        if newHash.Some? && newHash != oldHash {
          baseline := baseline[path := newHash.value];
          journal := journal + [Modified(path, oldHash, newHash.value)];
        } else {
          assert baseline == Put(baseline, path, newHash);
        }
      }
    }

    method OnFileDeleted(path: Path, watched: bool, now: int)
      modifies this
      ensures Mem() == After(old(Mem()), Notify(FileDeleted(path), watched, now))
    {
      var handle := false;
      if watched {
        handle := ShouldDebounce(path, now);
      }
      if handle {
        var oldHash := Get(baseline, path);
        baseline := baseline - {path};
        journal := journal + [Deleted(path, oldHash)];
      }
    }

    method OnFileRenamed(path: Path, oldPath: Path, newHash: Option<Hash>, watched: bool, now: int)
      modifies this
      ensures Mem() == After(old(Mem()), Notify(FileRenamed(path, oldPath, newHash), watched, now))
    {
      var handle := false;
      if watched {
        handle := ShouldDebounce(path, now);
      }
      if handle {
        var oldHash := Get(baseline, oldPath);
        baseline := baseline - {oldPath};
        if newHash.Some? {
          baseline := baseline[path := newHash.value];
        }
        journal := journal + [Renamed(path, oldPath, oldHash, newHash)];
      }
    }

    /** A scan of `files`, which may list a file more than once, emits exactly the differences. */
    method PeriodicScan(files: seq<Path>, fs: Files) returns (ghost events: seq<Event>)
      requires fs.listed == set f | f in files
      modifies this`baseline, this`journal
      ensures Mem() == After(old(Mem()), Scan(fs, events))
      ensures ExactDiff(events, old(baseline), baseline)
    {
      hide Scanned, Progress, ExactDiff;
      ghost var was := baseline;
      ghost var target := Scanned(was, fs);
      events := [];
      AtFirst(was, target);
      ghost var done: set<Path> := {};
      for i := 0 to |files|
        invariant journal == old(journal) + events && recentEvents == old(recentEvents)
        invariant done == set p | p in files[..i] && p in fs.hashes
        invariant Progress(was, baseline, target, done, events)
      {
        var file := files[i];
        assert files[..i + 1] == files[..i] + [file];
        if file !in fs.hashes {
          continue;
        }
        var hash := fs.hashes[file];
        ListedAsOnDisk(was, fs, file);
        ghost var b := baseline;
        if file in baseline {
          var oldHash := baseline[file];
          if hash != oldHash {
            baseline := baseline[file := hash];
            journal := journal + [Modified(file, Some(oldHash), hash)];
            NextEvent(was, b, target, done, baseline, events, Modified(file, Some(oldHash), hash));
            events := events + [Modified(file, Some(oldHash), hash)];
          } else {
            NoEvent(was, b, target, done, file, events);
          }
        } else {
          baseline := baseline[file := hash];
          journal := journal + [Created(file, hash)];
          NextEvent(was, b, target, done, baseline, events, Created(file, hash));
          events := events + [Created(file, hash)];
        }
        done := done + {file};
      }
      assert files[..|files|] == files;
      var keys := baseline.Keys;
      ghost var all := keys + done;
      while keys != {}
        invariant baseline.Keys <= all && all - keys <= done
        invariant keys <= baseline.Keys
        invariant forall p :: p in fs.listed && p in fs.hashes ==> p in done
        invariant journal == old(journal) + events && recentEvents == old(recentEvents)
        invariant Progress(was, baseline, target, done, events)
        decreases keys
      {
        var baselineFile :| baselineFile in keys;
        keys := keys - {baselineFile};
        ghost var b := baseline;
        if baselineFile !in fs.listed && baselineFile !in fs.present {
          Gone(was, b, fs, done, events, baselineFile);
          var oldHash := baseline[baselineFile];
          baseline := baseline - {baselineFile};
          journal := journal + [Deleted(baselineFile, Some(oldHash))];
          NextEvent(was, b, target, done, baseline, events, Deleted(baselineFile, Some(oldHash)));
          events := events + [Deleted(baselineFile, Some(oldHash))];
        } else {
          StillThere(was, b, fs, done, events, baselineFile);
          NoEvent(was, b, target, done, baselineFile, events);
        }
        done := done + {baselineFile};
      }
      AtLast(was, baseline, fs, done, events);
    }
  }

  /** The events so far tell the differences so far; `b` is `target` on the paths done, `was` on the others. */
  ghost predicate Progress(was: Baseline, b: Baseline, target: Baseline, done: set<Path>, events: seq<Event>) {
    && (forall p :: Get(b, p) == Get(if p in done then target else was, p))
    && AllTell(events, was, target) && OncePerPath(events) && PathsOf(events) == Changed(was, b)
  }

  lemma AtFirst(was: Baseline, target: Baseline)
    ensures Progress(was, was, target, {}, [])
  {}

  lemma ListedAsOnDisk(was: Baseline, fs: Files, p: Path)
    requires p in fs.listed && p in fs.hashes
    ensures Get(Scanned(was, fs), p) == Some(fs.hashes[p])
  {}

  lemma NoEvent(was: Baseline, b: Baseline, target: Baseline, done: set<Path>, p: Path, events: seq<Event>)
    requires Progress(was, b, target, done, events) && Get(b, p) == Get(target, p)
    ensures Progress(was, b, target, done + {p}, events)
  {
    hide AllTell, OncePerPath, PathsOf, Changed;
  }

  lemma Gone(was: Baseline, b: Baseline, fs: Files, done: set<Path>, events: seq<Event>, p: Path)
    requires Progress(was, b, Scanned(was, fs), done, events) && p in b && p !in fs.listed && p !in fs.present
    ensures Get(Scanned(was, fs), p) == None
  {
    hide AllTell, OncePerPath, PathsOf, Changed;
  }

  lemma StillThere(was: Baseline, b: Baseline, fs: Files, done: set<Path>, events: seq<Event>, p: Path)
    requires Progress(was, b, Scanned(was, fs), done, events) && p in b && (p in fs.listed || p in fs.present)
    requires p in fs.listed && p in fs.hashes ==> p in done
    ensures Get(b, p) == Get(Scanned(was, fs), p)
  {
    hide AllTell, OncePerPath, PathsOf, Changed;
    assert Get(b, p).Some?;
  }

  lemma AtLast(was: Baseline, b: Baseline, fs: Files, done: set<Path>, events: seq<Event>)
    requires Progress(was, b, Scanned(was, fs), done, events) && b.Keys <= done
    requires forall p :: p in fs.listed && p in fs.hashes ==> p in done
    ensures b == Scanned(was, fs) && ExactDiff(events, was, b)
  {
    hide AllTell, OncePerPath, PathsOf, Changed;
    forall p ensures Get(b, p) == Get(Scanned(was, fs), p) {
      if p !in done {
        assert Get(b, p) == Get(was, p);
      }
    }
    SameLookups(b, Scanned(was, fs));
  }

  lemma NextEvent(was: Baseline, b: Baseline, target: Baseline, done: set<Path>, b': Baseline,
                  events: seq<Event>, e: Event)
    requires Progress(was, b, target, done, events)
    requires Tells(e, b, b') && Get(b', e.path) == Get(target, e.path)
    requires forall q :: q != e.path ==> Get(b', q) == Get(b, q)
    ensures Progress(was, b', target, done + {e.path}, events + [e])
  {
    var p := e.path;
    assert Get(b, p) != Get(target, p);
    assert p !in done;
    assert Get(was, p) == Get(b, p);
    assert Tells(e, was, target);
    hide Tells;
    assert p !in Changed(was, b);
    forall i | 0 <= i < |events| ensures events[i].path != p {
      assert events[i] in events && events[i].path in PathsOf(events);
    }
    forall x ensures x in PathsOf(events + [e]) <==> x in PathsOf(events) || x == p {
      if x in PathsOf(events) {
        var f :| f in events && f.path == x;
        assert f in events + [e];
      }
      assert e in events + [e];
    }
    forall x ensures x in Changed(was, b') <==> x in Changed(was, b) || x == p {
      assert x in Changed(was, b') <==> Get(was, x) != Get(b', x);
      assert x in Changed(was, b) <==> Get(was, x) != Get(b, x);
    }
  }
}
