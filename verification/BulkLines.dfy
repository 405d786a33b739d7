/**
  Lines of bytes: splitting at line ends, joining with newlines, and what the two do to trailing empty lines.
  A byte is written as a character.
*/
module BulkLines {

  predicate IsEnd(c: char) {
    c == '\n' || c == '\r'
  }

  predicate OneLine(s: string) {
    forall i :: 0 <= i < |s| ==> !IsEnd(s[i])
  }

  predicate AllOneLine(ls: seq<string>) {
    forall i :: 0 <= i < |ls| ==> OneLine(ls[i])
  }

  /** The length of the first line. */
  function LineEnd(s: string): (e: nat)
    ensures e <= |s| && OneLine(s[..e]) && (e < |s| ==> IsEnd(s[e]))
  {
    if s == "" || IsEnd(s[0]) then 0 else 1 + LineEnd(s[1..])
  }

  /** Splits after \n, \r or \r\n; what follows the last line end is a line only if it is not empty. */
  function SplitLines(s: string): (ls: seq<string>)
    ensures AllOneLine(ls)
    decreases |s|
  {
    if s == "" then []
    else
      var e := LineEnd(s);
      if e == |s| then [s]
      else [s[..e]] + SplitLines(s[if s[e] == '\r' && e + 1 < |s| && s[e + 1] == '\n' then e + 2 else e + 1..])
  }

  function Join(ls: seq<string>): string {
    if ls == [] then "" else if |ls| == 1 then ls[0] else ls[0] + "\n" + Join(ls[1..])
  }

  /** The lines joined by newlines, with a newline at the end if there is none. */
  function Blob(ls: seq<string>): string {
    var blob := Join(ls);
    if blob != "" && blob[|blob| - 1] == '\n' then blob else blob + "\n"
  }

  function Terminate(ls: seq<string>): string {
    if ls == [] then "" else ls[0] + "\n" + Terminate(ls[1..])
  }

  /** One trailing empty line is absorbed by the final newline; no lines at all become an empty one. */
  function Normal(ls: seq<string>): seq<string> {
    if ls == [] then [""]
    else if |ls| > 1 && ls[|ls| - 1] == "" then ls[..|ls| - 1]
    else ls
  }

  lemma {:induction false} JoinLast(ls: seq<string>)
    requires ls != [] && AllOneLine(ls)
    ensures Join(ls) + "\n" == Terminate(ls)
    ensures |ls| > 1 && ls[|ls| - 1] == "" ==>
        Join(ls) == Terminate(ls[..|ls| - 1]) && Join(ls) != "" && Join(ls)[|Join(ls)| - 1] == '\n'
    ensures |ls| == 1 || ls[|ls| - 1] != "" ==> Join(ls) == "" || Join(ls)[|Join(ls)| - 1] != '\n'
  {
    if |ls| == 1 {
      assert Terminate(ls[1..]) == "";
      assert ls[0] + "\n" + "" == ls[0] + "\n";
      if ls[0] != "" {
        assert !IsEnd(ls[0][|ls[0]| - 1]);
      }
    } else {
      var rest := ls[1..];
      JoinLast(rest);
      assert ls[0] + "\n" + Join(rest) + "\n" == ls[0] + "\n" + (Join(rest) + "\n");
      assert ls[..|ls| - 1][1..] == rest[..|rest| - 1];
      if rest == [""] {
        assert Join(rest) == "" && Terminate(ls[..1]) == ls[0] + "\n" + "";
        assert ls[..1][1..] == [];
      }
      if ls[|ls| - 1] != "" {
        assert Join(rest) != "" by {
          JoinNotEmpty(rest);
        }
        assert Join(ls)[|Join(ls)| - 1] == Join(rest)[|Join(rest)| - 1];
      }
    }
  }

  lemma {:induction false} JoinNotEmpty(ls: seq<string>)
    requires ls != [] && ls[|ls| - 1] != ""
    ensures Join(ls) != ""
  {}

  /** A blob is its normal lines, each ended by a newline. */
  lemma BlobTerminates(ls: seq<string>)
    requires AllOneLine(ls)
    ensures Blob(ls) == Terminate(Normal(ls)) && Normal(ls) != [] && AllOneLine(Normal(ls))
  {
    if ls == [] {
      assert Terminate([""]) == "" + "\n" + Terminate([""][1..]);
    } else {
      JoinLast(ls);
    }
  }

  lemma {:induction false} LineEndAt(a: string, b: string)
    requires OneLine(a) && b != "" && IsEnd(b[0])
    ensures LineEnd(a + b) == |a|
  {
    if a == "" {
      assert a + b == b;
    } else {
      assert (a + b)[0] == a[0] && (a + b)[1..] == a[1..] + b;
      assert forall i :: 0 <= i < |a[1..]| ==> a[1..][i] == a[i + 1];
      LineEndAt(a[1..], b);
    }
  }

  /** Splitting undoes terminating. */
  lemma {:induction false} SplitTerminated(ls: seq<string>)
    requires AllOneLine(ls)
    ensures SplitLines(Terminate(ls)) == ls
  {
    if ls != [] {
      var s, rest := Terminate(ls), Terminate(ls[1..]);
      assert OneLine(ls[0]);
      assert s == ls[0] + ("\n" + rest);
      LineEndAt(ls[0], "\n" + rest);
      assert s[..|ls[0]|] == ls[0] && s[|ls[0]| + 1..] == rest;
      SplitTerminated(ls[1..]);
    }
  }

  /** Reading a blob back gives the normal lines. */
  lemma SplitBlob(ls: seq<string>)
    requires AllOneLine(ls)
    ensures SplitLines(Blob(ls)) == Normal(ls)
  {
    BlobTerminates(ls);
    SplitTerminated(Normal(ls));
  }

  lemma {:induction false} TerminateInjective(a: seq<string>, b: seq<string>)
    requires AllOneLine(a) && AllOneLine(b)
    ensures Terminate(a) == Terminate(b) <==> a == b
  {
    SplitTerminated(a);
    SplitTerminated(b);
  }

  // ---------------------------------------------------------------- what splitting means

  /** The line ends, in order; nothing after a last line that has none. */
  function EndsOf(s: string): (ends: seq<string>)
    decreases |s|
  {
    if s == "" then []
    else
      var e := LineEnd(s);
      if e == |s| then [""]
      else
        var n := if s[e] == '\r' && e + 1 < |s| && s[e + 1] == '\n' then e + 2 else e + 1;
        [s[e..n]] + EndsOf(s[n..])
  }

  function Rejoined(lines: seq<string>, ends: seq<string>): string
    requires |lines| == |ends|
  {
    if lines == [] then "" else lines[0] + ends[0] + Rejoined(lines[1..], ends[1..])
  }

  /** The end of line i: a newline, a return and a newline, a return that no newline follows, or nothing at the last. */
  predicate EndIs(lines: seq<string>, ends: seq<string>, i: nat)
    requires i < |lines| == |ends|
  {
    || ends[i] == "\n" || ends[i] == "\r\n"
    || (ends[i] == "\r" && (i + 1 < |ends| ==> lines[i + 1] != "" || ends[i + 1] != "\n"))
    || (ends[i] == "" && i == |ends| - 1 && lines[i] != "")
  }

  /** The length of the first line with its end. */
  function FirstCut(s: string): (n: nat)
    ensures LineEnd(s) <= n <= |s|
  {
    var e := LineEnd(s);
    if e == |s| then e else if s[e] == '\r' && e + 1 < |s| && s[e + 1] == '\n' then e + 2 else e + 1
  }

  lemma {:induction false} SplitHere(s: string)
    requires s != ""
    ensures var e, n := LineEnd(s), FirstCut(s);
            && 0 < n && SplitLines(s) == [s[..e]] + SplitLines(s[n..]) && EndsOf(s) == [s[e..n]] + EndsOf(s[n..])
  {
    hide LineEnd, OneLine, AllOneLine;
    if LineEnd(s) == |s| {
      assert s[..|s|] == s && s[|s|..] == "";
      NoLines();
      assert [s] + [] == [s] && [""] + [] == [""];
    }
  }

  lemma NoEndIn(s: string)
    requires OneLine(s)
    ensures '\n' !in s && '\r' !in s
  {}

  lemma {:induction false} CutLine(s: string)
    ensures var line := s[..LineEnd(s)]; '\n' !in line && '\r' !in line
  {
    hide OneLine;
    NoEndIn(s[..LineEnd(s)]);
  }

  lemma {:induction false} CutEnd(s: string)
    requires s != ""
    ensures var e, n := LineEnd(s), FirstCut(s);
            if e == |s| then n == e
            else if n == e + 2 then n <= |s| && s[e] == '\r' && s[e + 1] == '\n'
            else n == e + 1 && (s[e] == '\n' || (s[e] == '\r' && (n < |s| ==> s[n] != '\n')))
  {
    hide LineEnd, OneLine;
    assert LineEnd(s) < |s| ==> IsEnd(s[LineEnd(s)]);
  }

  lemma {:induction false} CutMeaning(s: string)
    requires s != ""
    ensures var e, n := LineEnd(s), FirstCut(s);
            var line, end := s[..e], s[e..n];
            && '\n' !in line && '\r' !in line
            && (|| end == "\n" || end == "\r\n" || (end == "\r" && (n < |s| ==> s[n] != '\n'))
                || (end == "" && n == |s| && line != ""))
  {
    hide LineEnd, OneLine, FirstCut, IsEnd;
    CutLine(s);
    CutEnd(s);
    var e, n := LineEnd(s), FirstCut(s);
    assert n == e ==> s[e..n] == "";
    assert n == e + 1 ==> s[e..n] == [s[e]];
    assert n == e + 2 ==> s[e..n] == [s[e], s[e + 1]];
  }

  /**
    Exactly how a body is split: at every newline and every carriage return, the two together counting once; the lines
    hold neither, lines and ends put together are the body, and only a last line that is not empty may have no end.
  */
  lemma {:induction false} SplitExactly(s: string)
    ensures var lines, ends := SplitLines(s), EndsOf(s);
            && |lines| == |ends| && Rejoined(lines, ends) == s
            && (forall line :: line in lines ==> '\n' !in line && '\r' !in line)
            && (forall i :: 0 <= i < |ends| ==> EndIs(lines, ends, i))
    decreases |s|
  {
    hide SplitLines, EndsOf, LineEnd, FirstCut;
    if s == "" {
      NoLines();
    } else {
      SplitHere(s);
      CutMeaning(s);
      var e, n := LineEnd(s), FirstCut(s);
      var line, end, rest := s[..e], s[e..n], s[n..];
      SplitExactly(rest);
      assert line + end == s[..n] && s == line + end + rest;
      var lines, ends := SplitLines(s), EndsOf(s);
      assert lines[1..] == SplitLines(rest) && ends[1..] == EndsOf(rest);
      if rest == "" {
        NoLines();
      } else {
        SplitHere(rest);
        FirstIs(rest);
      }
      forall i | 0 <= i < |ends|
        ensures EndIs(lines, ends, i)
      {
        if i > 0 {
          assert EndIs(lines[1..], ends[1..], i - 1);
        }
      }
    }
  }

  /** An empty first line that ends in a newline: the text begins with it. */
  lemma {:induction false} FirstIs(s: string)
    requires s != ""
    ensures s[..LineEnd(s)] == "" && s[LineEnd(s)..FirstCut(s)] == "\n" ==> s[0] == '\n'
  {
    hide LineEnd;
    if s[..LineEnd(s)] == "" && s[LineEnd(s)..FirstCut(s)] == "\n" {
      assert LineEnd(s) == 0 && s[0..FirstCut(s)][0] == s[0];
    }
  }

  lemma NoLines()
    ensures SplitLines("") == [] && EndsOf("") == []
  {}
}
