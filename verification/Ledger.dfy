/**
  The hash-chained evidence ledger of a node: appending, with the process stopping at any point of it; validity;
  and what an anchored head pins down.
*/
module Ledger {
  import opened Wrappers

  /** What is hashed for an entry: its canonical JSON. */
  datatype Core = Core(sequence: nat, timestamp: string, rule: Option<string>, stableHash: Option<string>,
                       prevHash: Option<string>, nodeId: string)

  datatype Entry = Entry(core: Core, headSha: string)

  /** The contents of the head file. */
  datatype Head = Head(sequence: nat, headSha: string, updatedAt: string)

  type Hash = Core -> string

  ghost predicate Injective(h: Hash) {
    forall a, b :: h(a) == h(b) ==> a == b
  }

  function PrevOf(entries: seq<Entry>): Option<string> {
    if entries == [] then None else Some(entries[|entries| - 1].headSha)
  }

  /** A chain: sequence 1..n, each entry hashed, each naming the hash of the one before. */
  predicate Valid(entries: seq<Entry>, h: Hash) {
    forall i :: 0 <= i < |entries| ==> Linked(entries, i, h)
  }

  predicate Linked(entries: seq<Entry>, i: nat, h: Hash)
    requires i < |entries|
  {
    && entries[i].headSha == h(entries[i].core)
    && entries[i].core.sequence == i + 1
    && entries[i].core.prevHash == PrevOf(entries[..i])
  }

  /** The head describes the last entry. */
  predicate HeadMatches(entries: seq<Entry>, head: Option<Head>) {
    if entries == [] then head == None
    else
      && head.Some?
      && head.value.sequence == entries[|entries| - 1].core.sequence
      && head.value.headSha == entries[|entries| - 1].headSha
  }

  // ---------------------------------------------------------------- files

  /** How entries and heads are written and read; text that is no JSON reads as None. */
  datatype Codec = Codec(entryText: Entry -> string, readEntry: string -> Option<Entry>,
                         headText: Head -> string, readHead: string -> Option<Head>)

  function Concat(pieces: seq<string>): string {
    if pieces == [] then "" else pieces[0] + Concat(pieces[1..])
  }

  /** A non-empty beginning of the text of some entry. */
  ghost predicate Piece(c: Codec, p: string) {
    p != "" && exists e :: p <= c.entryText(e)
  }

  /** A line of several pieces is no entry, nor is one of a single piece, unless that is the whole text. */
  ghost predicate Lawful(c: Codec) {
    && (forall e :: c.entryText(e) != "" && c.readEntry(c.entryText(e)) == Some(e))
    && (forall h :: c.headText(h) != "" && c.readHead(c.headText(h)) == Some(h))
    && (forall h, n :: 0 <= n < |c.headText(h)| ==> c.readHead(c.headText(h)[..n]) == None)
    && (forall ps: seq<string> :: |ps| >= 2 && (forall p :: p in ps ==> Piece(c, p)) ==>
        c.readEntry(Concat(ps)) == None)
  }

  /**
    The ledger's lines in order, each as the pieces that were written of it, an unfinished last line of the current
    day's file, and the text of the head file, if there is one.
  */
  datatype State = State(lines: seq<seq<string>>, tail: seq<string>, head: Option<string>)

  const EMPTY := State([], [], None)

  function AllLines(s: State): seq<seq<string>> {
    if s.tail == [] then s.lines else s.lines + [s.tail]
  }

  /** Reading the ledger back; it fails if some line is no entry. */
  function ReadLines(lines: seq<seq<string>>, c: Codec): Option<seq<Entry>> {
    if lines == [] then Some([])
    else
      var before, last := ReadLines(lines[..|lines| - 1], c), c.readEntry(Concat(lines[|lines| - 1]));
      if before.None? || last.None? then None else Some(before.value + [last.value])
  }

  /** Reading the head file: nothing there, a head, or text that is no JSON. */
  datatype HeadRead = NoHead | Good(head: Head) | Bad

  function ReadHead(s: State, c: Codec): HeadRead {
    if s.head.None? then NoHead
    else match c.readHead(s.head.value)
      case Some(h) => Good(h)
      case None => Bad
  }

  function ToOption(r: HeadRead): Option<Head> {
    if r.Good? then Some(r.head) else None
  }

  /** The ledger reads back as a valid chain, and the head describes its last entry. */
  predicate Intact(s: State, c: Codec, h: Hash) {
    var entries := ReadLines(AllLines(s), c);
    && entries.Some? && Valid(entries.value, h)
    && !ReadHead(s, c).Bad? && HeadMatches(entries.value, ToOption(ReadHead(s, c)))
  }

  // ---------------------------------------------------------------- appending

  /** `newDay` says that the date has changed since the last append, so that a new file is opened. */
  datatype Request = Request(timestamp: string, rule: Option<string>, stableHash: Option<string>, nodeId: string,
                             updatedAt: string, newDay: bool)

  /** Where the process stops, if it does: after n characters of the entry's line, or of the emptied head file. */
  datatype Stop = Completes | InEntry(n: nat) | InHead(n: nat)

  /** The entry that post_append makes; it looks at the head file only. */
  function NextEntry(head: Option<Head>, r: Request, h: Hash): Entry {
    var core := Core(if head.Some? then head.value.sequence + 1 else 1, r.timestamp, r.rule, r.stableHash,
                     if head.Some? then Some(head.value.headSha) else None, r.nodeId);
    Entry(core, h(core))
  }

  function HeadOf(e: Entry, r: Request): Head {
    Head(e.core.sequence, e.headSha, r.updatedAt)
  }

  /** The first n characters of a line and its newline reach the file. */
  function Written(s: State, text: string, n: nat, newDay: bool): State {
    var lines, tail := if newDay then AllLines(s) else s.lines, if newDay then [] else s.tail;
    if n == 0 then s.(lines := lines, tail := tail)
    else if n <= |text| then s.(lines := lines, tail := tail + [text[..n]])
    else s.(lines := lines + [tail + [text]], tail := [])
  }

  /** At most n characters, and never all of them. */
  function Torn(text: string, n: nat): string {
    if n < |text| then text[..n] else if text == "" then "" else text[..|text| - 1]
  }

  /** One append; it raises, and writes nothing, if the head file cannot be read. */
  function Append(s: State, r: Request, stop: Stop, c: Codec, h: Hash): State
  {
    var prev := ReadHead(s, c);
    if prev.Bad? then s
    else
      var e := NextEntry(ToOption(prev), r, h);
      var text, headText := c.entryText(e), c.headText(HeadOf(e, r));
      match stop
      case InEntry(n) => Written(s, text, n, r.newDay)
      case InHead(n) => Written(s, text, |text| + 1, r.newDay).(head := Some(Torn(headText, n)))
      case Completes => Written(s, text, |text| + 1, r.newDay).(head := Some(headText))
  }

  datatype Op = Op(request: Request, stop: Stop)

  function Run(ops: seq<Op>, c: Codec, h: Hash): State
  {
    if ops == [] then EMPTY
    else Append(Run(ops[..|ops| - 1], c, h), ops[|ops| - 1].request, ops[|ops| - 1].stop, c, h)
  }

  class LedgerFiles {
    const codec: Codec
    const hash: Hash
    var lines: seq<seq<string>>
    var tail: seq<string>
    var head: Option<string>

    function Files(): State
      reads this
    {
      State(lines, tail, head)
    }

    constructor (codec: Codec, hash: Hash)
      ensures Files() == EMPTY && this.codec == codec && this.hash == hash
    {
      this.codec, this.hash := codec, hash;
      lines, tail, head := [], [], None;
    }

    /** Appends a line to the day's file, or its first n characters if the process stops there. */
    method AppendJsonl(text: string, newDay: bool, n: nat)
      modifies this`lines, this`tail
      ensures Files() == Written(old(Files()), text, n, newDay)
    {
      if newDay {
        lines := if tail == [] then lines else lines + [tail];
        tail := [];
      }
      if n > |text| {
        lines := lines + [tail + [text]];
        tail := [];
      } else if n > 0 {
        tail := tail + [text[..n]];
      }
    }

    /** Opening for writing empties the file first; the process may stop after n characters. */
    method WriteHead(text: string, stop: Stop)
      modifies this`head
      ensures head == Some(if stop.InHead? then Torn(text, stop.n) else text)
    {
      head := Some("");
      head := Some(if stop.InHead? then Torn(text, stop.n) else text);
    }

    /** `ok` is false when the call ends in an exception or is cut short by the stop. */
    method PostAppend(r: Request, stop: Stop) returns (ok: bool, sequence: nat, headSha: string)
      modifies this
      ensures Files() == Append(old(Files()), r, stop, codec, hash)
      ensures ok <==> stop.Completes? && !ReadHead(old(Files()), codec).Bad?
      ensures ok ==> head == Some(codec.headText(Head(sequence, headSha, r.updatedAt)))
    {
      sequence, headSha := 0, "";
      var prev: Option<Head> := None;
      if head.Some? {
        prev := codec.readHead(head.value);
        if prev.None? {
          return false, 0, "";
        }
      }
      sequence := if prev.Some? then prev.value.sequence + 1 else 1;
      var core := Core(sequence, r.timestamp, r.rule, r.stableHash,
                       if prev.Some? then Some(prev.value.headSha) else None, r.nodeId);
      headSha := hash(core);
      var text := codec.entryText(Entry(core, headSha));
      if stop.InEntry? {
        AppendJsonl(text, r.newDay, stop.n);
        return false, sequence, headSha;
      }
      AppendJsonl(text, r.newDay, |text| + 1);
      WriteHead(codec.headText(Head(sequence, headSha, r.updatedAt)), stop);
      ok := stop.Completes?;
    }
  }

  // ---------------------------------------------------------------- whole runs

  /** An append that completed, or that stopped before it had written anything. */
  predicate Harmless(stop: Stop) {
    stop.Completes? || stop == InEntry(0)
  }

  predicate AllHarmless(ops: seq<Op>) {
    forall op :: op in ops ==> Harmless(op.stop)
  }

  /** The entries of the appends that completed. */
  function Completed(ops: seq<Op>, c: Codec, h: Hash): seq<Entry>
  {
    if ops == [] then []
    else
      var d, op := ops[..|ops| - 1], ops[|ops| - 1];
      var prev := ReadHead(Run(d, c, h), c);
      if op.stop.Completes? && !prev.Bad? then
        Completed(d, c, h) + [NextEntry(ToOption(prev), op.request, h)]
      else Completed(d, c, h)
  }

  lemma Extends(entries: seq<Entry>, head: Option<Head>, r: Request, h: Hash)
    requires Valid(entries, h) && HeadMatches(entries, head)
    ensures var e := NextEntry(head, r, h);
            Valid(entries + [e], h) && HeadMatches(entries + [e], Some(HeadOf(e, r)))
  {
    var e := NextEntry(head, r, h);
    var n, more := |entries|, entries + [e];
    if n > 0 {
      assert Linked(entries, n - 1, h);
    }
    forall i | 0 <= i < |more|
      ensures Linked(more, i, h)
    {
      assert more[..i] == entries[..i];
      if i < n {
        assert Linked(entries, i, h);
      } else {
        assert entries[..n] == entries;
      }
    }
  }

  /** Whatever stops happen, the completed appends form a valid chain, and a head that can be read describes it. */
  lemma {:induction false} CompletedChain(ops: seq<Op>, c: Codec, h: Hash)
    requires Lawful(c)
    ensures Valid(Completed(ops, c, h), h)
    ensures var prev := ReadHead(Run(ops, c, h), c);
            !prev.Bad? ==> HeadMatches(Completed(ops, c, h), ToOption(prev))
    decreases |ops|
  {
    if ops != [] {
      var d, op := ops[..|ops| - 1], ops[|ops| - 1];
      CompletedChain(d, c, h);
      var prev := ReadHead(Run(d, c, h), c);
      if op.stop.Completes? && !prev.Bad? {
        Extends(Completed(d, c, h), ToOption(prev), op.request, h);
      } else if op.stop.InHead? && !prev.Bad? {
        var e := NextEntry(ToOption(prev), op.request, h);
        TornIsBad(c, HeadOf(e, op.request), op.stop.n);
      }
    }
  }

  lemma TornIsBad(c: Codec, head: Head, n: nat)
    requires Lawful(c)
    ensures c.readHead(Torn(c.headText(head), n)) == None
  {
    var text := c.headText(head);
    assert c.readHead(text[..if n < |text| then n else |text| - 1]) == None;
  }

  /** The text of the files: complete lines, each with its newline, and the unfinished one. */
  function TextOf(lines: seq<seq<string>>, tail: seq<string>): string {
    if lines == [] then Concat(tail) else Concat(lines[0]) + "\n" + TextOf(lines[1..], tail)
  }

  lemma {:induction false} ConcatSnoc(pieces: seq<string>, p: string)
    ensures Concat(pieces + [p]) == Concat(pieces) + p
  {
    if pieces == [] {
      assert [] + [p] == [p] && [p][1..] == [] && p + "" == p;
    } else {
      assert (pieces + [p])[1..] == pieces[1..] + [p];
      ConcatSnoc(pieces[1..], p);
    }
  }

  lemma {:induction false} TextSnoc(lines: seq<seq<string>>, line: seq<string>)
    ensures TextOf(lines + [line], []) == TextOf(lines, line) + "\n"
  {
    if lines == [] {
      assert [] + [line] == [line] && [line][1..] == [];
      assert Concat(line) + "\n" + "" == Concat(line) + "\n";
    } else {
      assert (lines + [line])[1..] == lines[1..] + [line];
      TextSnoc(lines[1..], line);
    }
  }

  lemma {:induction false} TailGrows(lines: seq<seq<string>>, tail: seq<string>, p: string)
    ensures TextOf(lines, tail + [p]) == TextOf(lines, tail) + p
  {
    if lines == [] {
      ConcatSnoc(tail, p);
    } else {
      TailGrows(lines[1..], tail, p);
    }
  }

  /** Within a day, a write that stops after n characters has added exactly the first n of the line and its newline. */
  lemma {:induction false} WrittenText(s: State, text: string, n: nat)
    ensures var s', line := Written(s, text, n, false), text + "\n";
            TextOf(s'.lines, s'.tail) == TextOf(s.lines, s.tail) + if n <= |line| then line[..n] else line
  {
    var line := text + "\n";
    if n == 0 {
      assert line[..n] == "";
    } else if n <= |text| {
      TailGrows(s.lines, s.tail, text[..n]);
      assert line[..n] == text[..n];
    } else {
      TextSnoc(s.lines, s.tail + [text]);
      TailGrows(s.lines, s.tail, text);
      assert line[..|line|] == line;
    }
  }

  // How many pieces were written, and how many appends completed.

  function Pieces(lines: seq<seq<string>>): nat {
    if lines == [] then 0 else Pieces(lines[..|lines| - 1]) + |lines[|lines| - 1]|
  }

  lemma {:induction false} PiecesSnoc(lines: seq<seq<string>>, line: seq<string>)
    ensures Pieces(lines + [line]) == Pieces(lines) + |line|
  {
    assert (lines + [line])[..|lines|] == lines;
  }

  function Total(s: State): nat {
    Pieces(s.lines) + |s.tail|
  }

  lemma WrittenTotal(s: State, text: string, n: nat, newDay: bool)
    ensures Total(Written(s, text, n, newDay)) == Total(s) + if n > 0 then 1 else 0
    ensures Written(s, text, n, newDay).head == s.head
  {
    PiecesSnoc(s.lines, s.tail);
    var lines, tail := if newDay then AllLines(s) else s.lines, if newDay then [] else s.tail;
    PiecesSnoc(lines, tail + [text]);
  }

  ghost predicate PiecesOnly(s: State, c: Codec) {
    && (forall line :: line in s.lines ==> line != [] && forall p :: p in line ==> Piece(c, p))
    && (forall p :: p in s.tail ==> Piece(c, p))
  }

  lemma WrittenPieces(s: State, e: Entry, n: nat, newDay: bool, c: Codec)
    requires Lawful(c) && PiecesOnly(s, c)
    ensures PiecesOnly(Written(s, c.entryText(e), n, newDay), c)
  {
    var text := c.entryText(e);
    assert text <= c.entryText(e) && Piece(c, text);
    if 0 < n <= |text| {
      assert text[..n] <= c.entryText(e) && Piece(c, text[..n]);
    }
  }

  /**
    If the head can be read at the end, no append ever raised or stopped in the head; the pieces written are then
    as many as the appends that wrote something, and at least as many as those that completed.
  */
  lemma {:induction false} Tally(ops: seq<Op>, c: Codec, h: Hash)
    requires Lawful(c)
    ensures PiecesOnly(Run(ops, c, h), c)
    ensures !ReadHead(Run(ops, c, h), c).Bad? ==>
              var completed, total := |Completed(ops, c, h)|, Total(Run(ops, c, h));
              completed <= total && (completed == total <==> AllHarmless(ops))
    decreases |ops|
  {
    if ops != [] {
      var d, op := ops[..|ops| - 1], ops[|ops| - 1];
      Tally(d, c, h);
      assert ops == d + [op] && op in ops;
      assert AllHarmless(ops) <==> AllHarmless(d) && Harmless(op.stop);
      TallyStep(Run(d, c, h), op, c, h);
    }
  }

  /** One append writes a piece unless it raises or stops at once, and leaves a readable head unless it stops there. */
  lemma TallyStep(s: State, op: Op, c: Codec, h: Hash)
    requires Lawful(c) && PiecesOnly(s, c)
    ensures var s' := Append(s, op.request, op.stop, c, h);
            && PiecesOnly(s', c)
            && (ReadHead(s, c).Bad? ==> s' == s)
            && (!ReadHead(s, c).Bad? ==>
                  && Total(s') == Total(s) + (if op.stop == InEntry(0) then 0 else 1)
                  && (ReadHead(s', c).Bad? <==> op.stop.InHead?))
  {
    hide PiecesOnly, Total, Written;
    var prev := ReadHead(s, c);
    if !prev.Bad? {
      var e := NextEntry(ToOption(prev), op.request, h);
      var text := c.entryText(e);
      var n := if op.stop.InEntry? then op.stop.n else |text| + 1;
      WrittenTotal(s, text, n, op.request.newDay);
      WrittenPieces(s, e, n, op.request.newDay, c);
      var s' := Append(s, op.request, op.stop, c, h);
      SameFiles(Written(s, text, n, op.request.newDay), s', c);
      if op.stop.InHead? {
        TornIsBad(c, HeadOf(e, op.request), op.stop.n);
      }
    }
  }

  lemma SameFiles(s: State, s': State, c: Codec)
    ensures s'.lines == s.lines && s'.tail == s.tail ==>
              Total(s') == Total(s) && (PiecesOnly(s', c) <==> PiecesOnly(s, c))
  {
    hide Piece;
  }

  /** A ledger that reads back has one piece a line. */
  lemma {:induction false} OnePieceEach(lines: seq<seq<string>>, c: Codec)
    requires Lawful(c) && ReadLines(lines, c).Some?
    requires forall line :: line in lines ==> line != [] && forall p :: p in line ==> Piece(c, p)
    ensures |ReadLines(lines, c).value| == |lines| == Pieces(lines)
    decreases |lines|
  {
    if lines != [] {
      var n := |lines| - 1;
      assert lines[n] in lines;
      assert forall line :: line in lines[..n] ==> line in lines;
      OnePieceEach(lines[..n], c);
    }
  }

  /** Without a harmful stop the ledger reads back as the completed entries. */
  lemma {:induction false} HarmlessReads(ops: seq<Op>, c: Codec, h: Hash)
    requires Lawful(c) && AllHarmless(ops)
    ensures var s := Run(ops, c, h);
            s.tail == [] && ReadLines(s.lines, c) == Some(Completed(ops, c, h)) && !ReadHead(s, c).Bad?
    decreases |ops|
  {
    if ops != [] {
      var d, op := ops[..|ops| - 1], ops[|ops| - 1];
      assert forall o :: o in d ==> o in ops;
      HarmlessReads(d, c, h);
      assert op in ops;
      HarmlessStep(Run(d, c, h), op, Completed(d, c, h), c, h);
    }
  }

  lemma {:induction false} HarmlessStep(s: State, op: Op, entries: seq<Entry>, c: Codec, h: Hash)
    requires Lawful(c) && Harmless(op.stop) && !ReadHead(s, c).Bad?
    requires s.tail == [] && ReadLines(s.lines, c) == Some(entries)
    ensures var s' := Append(s, op.request, op.stop, c, h);
            && s'.tail == [] && !ReadHead(s', c).Bad?
            && ReadLines(s'.lines, c) == Some(entries + if op.stop.Completes? then
                                                [NextEntry(ToOption(ReadHead(s, c)), op.request, h)] else [])
  {
    hide ReadLines, Concat;
    if op.stop.Completes? {
      var e := NextEntry(ToOption(ReadHead(s, c)), op.request, h);
      assert [] + [c.entryText(e)] == [c.entryText(e)];
      ReadOneMore(s.lines, e, c);
    } else {
      assert entries + [] == entries;
    }
  }

  lemma {:induction false} ReadOneMore(lines: seq<seq<string>>, e: Entry, c: Codec)
    requires Lawful(c) && ReadLines(lines, c).Some?
    ensures ReadLines(lines + [[c.entryText(e)]], c) == Some(ReadLines(lines, c).value + [e])
  {
    var text := c.entryText(e);
    assert (lines + [[text]])[..|lines|] == lines;
    assert [text][1..] == [] && text + "" == text;
    assert Concat([text]) == text;
  }

  /**
    The ledger is intact, after any run of appends that may stop anywhere, exactly if no append stopped after writing
    its first character and before completing: not inside the entry, between the two files, or inside the head.
  */
  lemma {:induction false} ChainIntactExactly(ops: seq<Op>, c: Codec, h: Hash)
    requires Lawful(c)
    ensures Intact(Run(ops, c, h), c, h) <==> AllHarmless(ops)
  {
    hide Run, Completed, AllHarmless, PiecesOnly, Lawful;
    var s := Run(ops, c, h);
    CompletedChain(ops, c, h);
    Tally(ops, c, h);
    if AllHarmless(ops) {
      HarmlessReads(ops, c, h);
    }
    if Intact(s, c, h) {
      LinesArePieces(s, c);
      OnePieceEach(AllLines(s), c);
      var entries := ReadLines(AllLines(s), c).value;
      SameHead(entries, Completed(ops, c, h), ToOption(ReadHead(s, c)), h);
    }
  }

  /** The requests whose appends completed. */
  function Answered(ops: seq<Op>): seq<Request> {
    if ops == [] then []
    else Answered(ops[..|ops| - 1]) + if ops[|ops| - 1].stop.Completes? then [ops[|ops| - 1].request] else []
  }

  /** The entry holds the data of the request, at that place in the chain. */
  predicate Records(e: Entry, r: Request, place: nat, before: seq<Entry>, h: Hash) {
    && e.core.timestamp == r.timestamp && e.core.rule == r.rule && e.core.stableHash == r.stableHash
    && e.core.nodeId == r.nodeId && e.core.sequence == place + 1
    && e.core.prevHash == (if before == [] then None else Some(before[|before| - 1].headSha))
    && e.headSha == h(e.core)
  }

  /**
    Whatever appends stopped: if the ledger is intact, reading it back gives one entry for each completed request, in
    order, with the request's own timestamp, rule, hash and node.
  */
  lemma {:induction false} LedgerRecords(ops: seq<Op>, c: Codec, h: Hash)
    requires Lawful(c) && Intact(Run(ops, c, h), c, h)
    ensures var entries := ReadLines(AllLines(Run(ops, c, h)), c).value;
            && |entries| == |Answered(ops)|
            && forall i :: 0 <= i < |entries| ==> Records(entries[i], Answered(ops)[i], i, entries[..i], h)
  {
    hide Run, Completed, AllHarmless, Lawful, Records;
    ChainIntactExactly(ops, c, h);
    HarmlessReads(ops, c, h);
    CompletedRecords(ops, c, h);
  }

  lemma {:induction false} CompletedRecords(ops: seq<Op>, c: Codec, h: Hash)
    requires Lawful(c) && AllHarmless(ops)
    ensures var entries := Completed(ops, c, h);
            && |entries| == |Answered(ops)|
            && forall i :: 0 <= i < |entries| ==> Records(entries[i], Answered(ops)[i], i, entries[..i], h)
    decreases |ops|
  {
    hide Lawful, Run, Valid, Records, HeadMatches;
    if ops != [] {
      var d, op := ops[..|ops| - 1], ops[|ops| - 1];
      assert forall o :: o in d ==> o in ops;
      assert op in ops;
      CompletedRecords(d, c, h);
      HarmlessReads(d, c, h);
      CompletedChain(d, c, h);
      var before, prev := Completed(d, c, h), ReadHead(Run(d, c, h), c);
      if op.stop.Completes? {
        assert Answered(ops) == Answered(d) + [op.request];
        OneMoreRecord(before, Answered(d), ToOption(prev), op.request, h);
      } else {
        assert Answered(ops) == Answered(d) + [];
      }
    }
  }

  lemma OneMoreRecord(before: seq<Entry>, rs: seq<Request>, head: Option<Head>, r: Request, h: Hash)
    requires Valid(before, h) && HeadMatches(before, head) && |before| == |rs|
    requires forall i :: 0 <= i < |before| ==> Records(before[i], rs[i], i, before[..i], h)
    ensures var entries, all := before + [NextEntry(head, r, h)], rs + [r];
            forall i :: 0 <= i < |entries| ==> Records(entries[i], all[i], i, entries[..i], h)
  {
    hide Valid;
    if before != [] {
      LastSequence(before, h);
    }
    var entries := before + [NextEntry(head, r, h)];
    forall i | 0 <= i < |entries|
      ensures Records(entries[i], (rs + [r])[i], i, entries[..i], h)
    {
      assert entries[..i] == before[..i];
      if i == |before| {
        assert before[..i] == before;
      } else {
        assert Records(before[i], rs[i], i, before[..i], h);
      }
    }
  }

  lemma LastSequence(entries: seq<Entry>, h: Hash)
    requires Valid(entries, h) && entries != []
    ensures entries[|entries| - 1].core.sequence == |entries|
  {
    assert Linked(entries, |entries| - 1, h);
  }

  lemma LinesArePieces(s: State, c: Codec)
    requires PiecesOnly(s, c)
    ensures forall line :: line in AllLines(s) ==> line != [] && forall p :: p in line ==> Piece(c, p)
    ensures Pieces(AllLines(s)) == Total(s)
  {
    PiecesSnoc(s.lines, s.tail);
  }

  /** Chains that one head describes are equally long: it names their last sequence number. */
  lemma SameHead(a: seq<Entry>, b: seq<Entry>, head: Option<Head>, h: Hash)
    requires Valid(a, h) && Valid(b, h) && HeadMatches(a, head) && HeadMatches(b, head)
    ensures |a| == |b|
  {
    if a != [] {
      assert Linked(a, |a| - 1, h);
    }
    if b != [] {
      assert Linked(b, |b| - 1, h);
    }
  }

  // ---------------------------------------------------------------- what a head pins down

  lemma PrefixValid(entries: seq<Entry>, n: nat, h: Hash)
    requires Valid(entries, h) && n <= |entries|
    ensures Valid(entries[..n], h)
  {
    forall i | 0 <= i < n
      ensures Linked(entries[..n], i, h)
    {
      assert Linked(entries, i, h);
      assert entries[..n][..i] == entries[..i];
    }
  }

  /** Two valid chains that end in the same head are the same chain. */
  lemma {:induction false} SameHeadSameChain(a: seq<Entry>, b: seq<Entry>, h: Hash)
    requires Injective(h) && Valid(a, h) && Valid(b, h)
    requires PrevOf(a) == PrevOf(b)
    ensures a == b
    decreases |a|
  {
    if a != [] && b != [] {
      var n, m := |a| - 1, |b| - 1;
      assert Linked(a, n, h) && Linked(b, m, h);
      PrefixValid(a, n, h);
      PrefixValid(b, m, h);
      SameHeadSameChain(a[..n], b[..m], h);
      assert a == a[..n] + [a[n]] && b == b[..m] + [b[m]];
    }
  }

  /** A head once anchored fixes every entry up to it: in any valid chain that contains it, at the same place. */
  lemma AnchorFixesPrefix(a: seq<Entry>, b: seq<Entry>, n: nat, m: nat, h: Hash)
    requires Injective(h) && Valid(a, h) && Valid(b, h) && n < |a| && m < |b|
    requires a[n].headSha == b[m].headSha
    ensures n == m && a[..n + 1] == b[..m + 1]
  {
    PrefixValid(a, n + 1, h);
    PrefixValid(b, m + 1, h);
    SameHeadSameChain(a[..n + 1], b[..m + 1], h);
    assert |a[..n + 1]| == n + 1;
  }

  /**
    So any change to an anchored ledger - an entry altered,
    dropped or put in - shows in its head or breaks the chain.
  */
  lemma TamperingShows(original: seq<Entry>, tampered: seq<Entry>, h: Hash)
    requires Injective(h) && Valid(original, h) && tampered != original
    ensures !Valid(tampered, h) || PrevOf(tampered) != PrevOf(original)
  {
    if Valid(tampered, h) && PrevOf(tampered) == PrevOf(original) {
      SameHeadSameChain(original, tampered, h);
    }
  }
}
