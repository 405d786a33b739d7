/**
  JSONL segments as byte sequences, and the line-by-line meaning of one read.

  The reader's byte loop (module SegmentReader) is proved against `Take`; this module proves
  what `Take` itself means.
*/
module Lines {
  import opened Wrappers

  newtype byte = x: int | 0 <= x < 256
  type Bytes = seq<byte>

  const NEWLINE: byte := 10
  const CARRIAGE_RETURN: byte := 13
  const SPACE: byte := 32
  const TAB: byte := 9
  const OPEN_BRACE: byte := 123
  const OPEN_BRACKET: byte := 91

  /** A position where a line can start: the beginning, or just after a newline. */
  predicate Boundary(s: Bytes, i: int) {
    0 <= i <= |s| && (i == 0 || s[i - 1] == NEWLINE)
  }

  /** `s` consists of complete lines only. */
  predicate Complete(s: Bytes) {
    Boundary(s, |s|)
  }

  /** The length of the first line of `s`, its newline included; 0 if `s` has no complete line. */
  function LineEnd(s: Bytes): (n: nat)
    ensures n <= |s|
  {
    if s == [] then 0
    else if s[0] == NEWLINE then 1
    else
      var n := LineEnd(s[1..]);
      if n == 0 then 0 else n + 1
  }

  lemma {:induction false} LineEndMeaning(s: Bytes)
    ensures LineEnd(s) == 0 <==> 10 !in s
    ensures LineEnd(s) > 0 ==> s[LineEnd(s) - 1] == 10 && 10 !in s[..LineEnd(s) - 1]
  {
    if s != [] {
      LineEndMeaning(s[1..]);
      assert s == [s[0]] + s[1..];
      var n := LineEnd(s);
      if n > 1 {
        assert s[..n - 1] == [s[0]] + s[1..][..n - 2];
      }
    }
  }

  // ---------------------------------------------------------------- one line

  function SkipBlanks(raw: Bytes, i: nat): (j: nat)
    requires i <= |raw|
    ensures i <= j <= |raw|
    decreases |raw| - i
  {
    if i < |raw| && (raw[i] == SPACE || raw[i] == TAB) then SkipBlanks(raw, i + 1) else i
  }

  predicate StartsWithBom(raw: Bytes) {
    |raw| >= 3 && raw[0] == 0xEF && raw[1] == 0xBB && raw[2] == 0xBF
  }

  /** The JSON text of a line (without line terminator), if the line is taken for JSON at all. */
  function Decode(raw: Bytes): (text: Option<Bytes>)
  {
    var i := SkipBlanks(raw, if StartsWithBom(raw) then 3 else 0);
    if i < |raw| && (raw[i] == OPEN_BRACE || raw[i] == OPEN_BRACKET) then Some(raw[i..]) else None
  }

  /** The text begins at k: behind a byte order mark, if any, and blanks and tabs, with a brace or a bracket. */
  predicate TextAt(raw: Bytes, k: int) {
    var n := if |raw| >= 3 && raw[..3] == [239, 187, 191] then 3 else 0;
    && n <= k < |raw| && (forall i :: n <= i < k ==> raw[i] == 32 || raw[i] == 9) && (raw[k] == 123 || raw[k] == 91)
  }

  lemma {:induction false} SkipBlanksMeaning(raw: Bytes, i: nat)
    requires i <= |raw|
    ensures var j := SkipBlanks(raw, i);
            && (forall k :: i <= k < j ==> raw[k] == 32 || raw[k] == 9) && (j < |raw| ==> raw[j] != 32 && raw[j] != 9)
    decreases |raw| - i
  {
    if i < |raw| && (raw[i] == SPACE || raw[i] == TAB) {
      SkipBlanksMeaning(raw, i + 1);
    }
  }

  /** Exactly which lines are taken for JSON, and what of them is kept; a carriage return at the end is dropped. */
  lemma {:induction false} LineTextExactly(raw: Bytes)
    ensures var line := if raw != [] && raw[|raw| - 1] == 13 then raw[..|raw| - 1] else raw;
            && (LineText(raw) == [] <==> forall k :: !TextAt(line, k))
            && (LineText(raw) != [] ==> exists k :: TextAt(line, k) && LineText(raw) == [line[k..]])
  {
    var line := TrimCarriageReturn(raw);
    var start := if StartsWithBom(line) then 3 else 0;
    assert StartsWithBom(line) <==> |line| >= 3 && line[..3] == [239, 187, 191];
    SkipBlanksMeaning(line, start);
    var j := SkipBlanks(line, start);
    if j < |line| && (line[j] == 123 || line[j] == 91) {
      assert TextAt(line, j) && LineText(raw) == [line[j..]];
    }
  }

  function TrimCarriageReturn(raw: Bytes): Bytes {
    if raw != [] && raw[|raw| - 1] == CARRIAGE_RETURN then raw[..|raw| - 1] else raw
  }

  /** What one line contributes to a read: its text, or nothing. */
  function LineText(raw: Bytes): (texts: seq<Bytes>)
    ensures |texts| <= 1
  {
    match Decode(TrimCarriageReturn(raw))
    case Some(text) => [text]
    case None => []
  }

  /** What the queue writer puts on a line: a JSON object. */
  predicate WriterLine(line: Bytes) {
    && line != []
    && line[0] == OPEN_BRACE
    && line[|line| - 1] != CARRIAGE_RETURN
    && NEWLINE !in line
  }

  lemma WriterLineText(line: Bytes)
    requires WriterLine(line)
    ensures LineText(line) == [line]
  {
    assert line[0..] == line;
  }

  // ---------------------------------------------------------------- all lines

  /** The texts of all complete lines of `s`, in order. */
  function Texts(s: Bytes): (texts: seq<Bytes>)
    decreases |s|
  {
    var n := LineEnd(s);
    if n == 0 then [] else LineText(s[..n - 1]) + Texts(s[n..])
  }

  lemma {:induction false} LineEndOfConcat(a: Bytes, b: Bytes)
    ensures LineEnd(a) > 0 ==> LineEnd(a + b) == LineEnd(a)
    ensures LineEnd(a) == 0 ==> LineEnd(a + b) == (if LineEnd(b) == 0 then 0 else |a| + LineEnd(b))
  {
    if a == [] {
      assert a + b == b;
    } else {
      assert (a + b)[1..] == a[1..] + b;
      LineEndOfConcat(a[1..], b);
    }
  }

  lemma {:induction false} LineEndOfLine(line: Bytes, rest: Bytes)
    requires NEWLINE !in line
    ensures LineEnd(line + [NEWLINE] + rest) == |line| + 1
    ensures (line + [NEWLINE] + rest)[..|line|] == line
    ensures (line + [NEWLINE] + rest)[|line| + 1..] == rest
  {
    var tail := [NEWLINE] + rest;
    assert line + [NEWLINE] + rest == line + tail;
    assert LineEnd(tail) == 1;
    LineEndMeaning(line);
    LineEndOfConcat(line, tail);
  }

  lemma CompleteTail(s: Bytes, i: nat)
    requires Complete(s) && i <= |s|
    ensures Complete(s[i..])
  {}

  lemma {:induction false} CompleteHasLine(s: Bytes)
    requires Complete(s) && s != []
    ensures LineEnd(s) > 0
  {
    LineEndMeaning(s);
  }

  /** Texts of complete lines followed by anything: nothing is glued across a boundary. */
  lemma {:induction false} TextsOfConcat(a: Bytes, b: Bytes)
    requires Complete(a)
    ensures Texts(a + b) == Texts(a) + Texts(b)
    decreases |a|
  {
    hide LineText, LineEnd;
    if a == [] {
      assert a + b == b;
    } else {
      CompleteHasLine(a);
      LineEndOfConcat(a, b);
      var n := LineEnd(a);
      assert (a + b)[..n - 1] == a[..n - 1];
      assert (a + b)[n..] == a[n..] + b;
      CompleteTail(a, n);
      TextsOfConcat(a[n..], b);
    }
  }

  // ---------------------------------------------------------------- one bounded read

  /** What a read returns: the texts, how many bytes it moves past, and whether it saw the end of file. */
  datatype ReadResult = ReadResult(texts: seq<Bytes>, consumed: nat, eof: bool)

  function After(texts: seq<Bytes>, bytes: nat, r: ReadResult): ReadResult {
    ReadResult(texts + r.texts, bytes + r.consumed, r.eof)
  }

  /** One read of the unread bytes `s` with room for `maxEvents` texts and `maxBytes` bytes. */
  function Take(s: Bytes, maxEvents: int, maxBytes: int): (r: ReadResult)
    ensures r.consumed <= |s|
    decreases |s|
  {
    var n := LineEnd(s);
    if maxEvents <= 0 || maxBytes <= 0 then ReadResult([], 0, false)
    else if n == 0 then ReadResult([], 0, s == [])
    else if n > maxBytes then ReadResult([], 0, false)
    else
      var texts := LineText(s[..n - 1]);
      After(texts, n, Take(s[n..], maxEvents - |texts|, maxBytes - n))
  }

  /** The complete lines `d` can all be taken one after the other within the two budgets. */
  predicate Fits(d: Bytes, maxEvents: int, maxBytes: int)
    decreases |d|
  {
    d == [] ||
    (var n := LineEnd(d);
     && 0 < n <= maxBytes
     && maxEvents > 0
     && Fits(d[n..], maxEvents - |LineText(d[..n - 1])|, maxBytes - n))
  }

  lemma FirstLine(s: Bytes, maxEvents: int, maxBytes: int)
    requires LineEnd(s) > 0
    ensures var n := LineEnd(s);
            var texts := LineText(s[..n - 1]);
            && Texts(s) == texts + Texts(s[n..])
            && (Fits(s, maxEvents, maxBytes) <==>
                n <= maxBytes && maxEvents > 0 && Fits(s[n..], maxEvents - |texts|, maxBytes - n))
            && Take(s, maxEvents, maxBytes) ==
               if maxEvents <= 0 || maxBytes <= 0 || n > maxBytes then ReadResult([], 0, false)
               else After(texts, n, Take(s[n..], maxEvents - |texts|, maxBytes - n))
  {}

  lemma {:induction false} NoLine(s: Bytes, maxEvents: int, maxBytes: int)
    requires LineEnd(s) == 0
    ensures Texts(s) == []
    ensures Take(s, maxEvents, maxBytes) == ReadResult([], 0, s == [] && maxEvents > 0 && maxBytes > 0)
  {}

  lemma {:induction false} FitsSnoc(d: Bytes, line: Bytes, maxEvents: int, maxBytes: int)
    requires Complete(d) && Fits(d, maxEvents, maxBytes)
    requires NEWLINE !in line
    requires |Texts(d)| < maxEvents && |d| + |line| + 1 <= maxBytes
    ensures Fits(d + line + [NEWLINE], maxEvents, maxBytes)
    ensures Texts(d + line + [NEWLINE]) == Texts(d) + LineText(line)
    decreases |d|
  {
    hide LineText, LineEnd;
    var all := d + line + [NEWLINE];
    if d == [] {
      LineEndOfLine(line, []);
      assert all == line + [NEWLINE] + [];
    } else {
      var n := LineEnd(d);
      CompleteHasLine(d);
      LineEndOfConcat(d, line + [NEWLINE]);
      assert all == d + (line + [NEWLINE]);
      assert all[..n - 1] == d[..n - 1];
      assert all[n..] == d[n..] + line + [NEWLINE];
      CompleteTail(d, n);
      FitsSnoc(d[n..], line, maxEvents - |LineText(d[..n - 1])|, maxBytes - n);
    }
  }

  /** Lines that fit are taken first; the rest is taken with what is left of the budgets. */
  lemma {:induction false} TakeAfter(d: Bytes, s: Bytes, maxEvents: int, maxBytes: int)
    requires Complete(d) && Fits(d, maxEvents, maxBytes)
    ensures Take(d + s, maxEvents, maxBytes) ==
            After(Texts(d), |d|, Take(s, maxEvents - |Texts(d)|, maxBytes - |d|))
    decreases |d|
  {
    hide LineText, LineEnd, Take, Texts, Fits;
    if d == [] {
      assert d + s == s;
      NoTexts();
    } else {
      var n := LineEnd(d);
      CompleteHasLine(d);
      LineEndOfConcat(d, s);
      FirstLine(d, maxEvents, maxBytes);
      FirstLine(d + s, maxEvents, maxBytes);
      assert (d + s)[..n - 1] == d[..n - 1];
      assert (d + s)[n..] == d[n..] + s;
      CompleteTail(d, n);
      var texts := LineText(d[..n - 1]);
      TakeAfter(d[n..], s, maxEvents - |texts|, maxBytes - n);
    }
  }

  lemma NoTexts()
    ensures LineEnd([]) == 0 && Texts([]) == []
  {}

  /** Cutting `s` short somewhere after its first line leaves that line in place. */
  lemma CutAfterLine(s: Bytes, more: nat)
    requires LineEnd(s) > 0 && LineEnd(s) + more <= |s|
    ensures var n := LineEnd(s);
            var d := s[..n + more];
            LineEnd(d) == n && d[..n - 1] == s[..n - 1] && d[n..] == s[n..][..more]
  {
    hide LineEnd;
    var n := LineEnd(s);
    var d := s[..n + more];
    assert s == d + s[n + more..];
    LineEndMeaning(s);
    LineEndMeaning(d);
    assert d[n - 1] == NEWLINE;
    LineEndOfConcat(d, s[n + more..]);
  }

  /** What a read moved past is complete lines, fitting any budgets that leave room after them. */
  lemma {:induction false} TakenFits(s: Bytes, maxEvents: int, maxBytes: int, moreEvents: int, moreBytes: int)
    requires moreEvents > 0 && moreBytes > 0
    ensures var r := Take(s, maxEvents, maxBytes);
            && Boundary(s, r.consumed)
            && r.texts == Texts(s[..r.consumed])
            && Fits(s[..r.consumed], |r.texts| + moreEvents, r.consumed + moreBytes)
    decreases |s|
  {
    hide LineText, LineEnd, Take, Texts, Fits;
    var n := LineEnd(s);
    if n == 0 || maxEvents <= 0 || maxBytes <= 0 || n > maxBytes {
      TakesNothing(s, maxEvents, maxBytes, moreEvents, moreBytes);
    } else {
      LineEndMeaning(s);
      FirstLine(s, maxEvents, maxBytes);
      var texts := LineText(s[..n - 1]);
      var more := Take(s[n..], maxEvents - |texts|, maxBytes - n).consumed;
      TakenFits(s[n..], maxEvents - |texts|, maxBytes - n, moreEvents, moreBytes);
      CutAfterLine(s, more);
      var d := s[..n + more];
      FirstLine(d, |texts| + |Texts(d[n..])| + moreEvents, n + more + moreBytes);
    }
  }

  lemma {:induction false} TakesNothing(s: Bytes, maxEvents: int, maxBytes: int, moreEvents: int, moreBytes: int)
    requires maxEvents <= 0 || maxBytes <= 0 || Exhausted(s, maxBytes)
    ensures var r := Take(s, maxEvents, maxBytes);
            r.texts == [] && r.consumed == 0
    ensures s[..0] == [] && Texts([]) == [] && Fits([], moreEvents, moreBytes)
  {
    assert Texts([]) == [] by { LineEndMeaning([]); }
  }

  /** Why a read with room left takes nothing more from `s`: no further line, or one too long for `room`. */
  predicate Exhausted(s: Bytes, room: int) {
    LineEnd(s) == 0 || LineEnd(s) > room
  }

  /**
    What `Take` means, without following it line by line: it stops on a line boundary, returns exactly the
    texts of what it moved past, keeps to both budgets, and stops only when a budget is used up, or no
    complete line is left, or the next line does not fit. End of file is claimed exactly when every byte
    was consumed and both budgets still had room.
  */
  lemma {:induction false} TakeMeaning(s: Bytes, maxEvents: nat, maxBytes: nat)
    ensures var r := Take(s, maxEvents, maxBytes);
            && Boundary(s, r.consumed)
            && r.texts == Texts(s[..r.consumed])
            && |r.texts| <= maxEvents && r.consumed <= maxBytes
            && (|r.texts| == maxEvents || r.consumed == maxBytes ||
                Exhausted(s[r.consumed..], maxBytes - r.consumed))
            && (r.eof <==> r.consumed == |s| && |r.texts| < maxEvents && r.consumed < maxBytes)
    decreases |s|
  {
    hide LineText, LineEnd, Take, Texts, Fits;
    TakenFits(s, maxEvents, maxBytes, 1, 1);
    var r := Take(s, maxEvents, maxBytes);
    var n := LineEnd(s);
    if n == 0 {
      NoLine(s, maxEvents, maxBytes);
      assert s[0..] == s;
    } else {
      FirstLine(s, maxEvents, maxBytes);
      if maxEvents == 0 || maxBytes == 0 || n > maxBytes {
        assert s[0..] == s;
      } else {
        var texts := LineText(s[..n - 1]);
        var rest := Take(s[n..], maxEvents - |texts|, maxBytes - n);
        TakeMeaning(s[n..], maxEvents - |texts|, maxBytes - n);
        assert s[n..][rest.consumed..] == s[r.consumed..];
      }
    }
  }

  /** Two reads in a row are one read with the joined budgets. */
  lemma {:induction false} ReadsCompose(s: Bytes, maxEvents: int, maxBytes: int, maxEvents': int, maxBytes': int)
    requires maxEvents' > 0 && maxBytes' > 0
    ensures var r := Take(s, maxEvents, maxBytes);
            var r' := Take(s[r.consumed..], maxEvents', maxBytes');
            Take(s, |r.texts| + maxEvents', r.consumed + maxBytes') == After(r.texts, r.consumed, r')
  {
    hide LineText, LineEnd, Take, Texts, Fits;
    var r := Take(s, maxEvents, maxBytes);
    TakenFits(s, maxEvents, maxBytes, maxEvents', maxBytes');
    TakeAfter(s[..r.consumed], s[r.consumed..], |r.texts| + maxEvents', r.consumed + maxBytes');
    assert s == s[..r.consumed] + s[r.consumed..];
  }
}
