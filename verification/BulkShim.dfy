/**
  The bulk rewriter: removes legacy types and wildcard targets from the action lines of a bulk request,
  and leaves everything else alone.
*/
module BulkShim {
  import opened Wrappers

  import opened BulkLines
  import opened Text

  datatype Value = Object(fields: seq<Field>) | Text(s: string) | Other(repr: string)
  datatype Field = Field(key: string, value: Value)

  /** The JSON codec, and the index that replaces wildcard targets. */
  datatype World = World(load: string -> Option<Value>, dump: Value -> string, safeIndex: string)

  function Keys(fs: seq<Field>): set<string> {
    set f | f in fs :: f.key
  }

  predicate Distinct(fs: seq<Field>) {
    fs == [] || (fs[0].key !in Keys(fs[1..]) && Distinct(fs[1..]))
  }

  /** A value in which no object repeats a key. */
  predicate Canonical(v: Value) {
    v.Object? ==> Distinct(v.fields) && forall f :: f in v.fields ==> Canonical(f.value)
  }

  ghost predicate Lawful(w: World) {
    && (forall v :: Canonical(v) ==> w.load(w.dump(v)) == Some(v))
    && (forall t :: w.load(t).Some? ==> Canonical(w.load(t).value))
    && (forall v :: w.dump(v) != "" && Strip(w.dump(v)) == w.dump(v) && OneLine(w.dump(v)))
  }

  // ---------------------------------------------------------------- one action line

  predicate Legacy(key: string) {
    key == "_type" || key == "type"
  }

  predicate Wildcard(f: Field) {
    f.key == "_index" && f.value.Text? && '*' in f.value.s
  }

  function CleanField(f: Field, safeIndex: string): Field {
    if Wildcard(f) then f.(value := Text(safeIndex)) else f
  }

  function CleanFields(fs: seq<Field>, safeIndex: string): seq<Field> {
    if fs == [] then []
    else (if Legacy(fs[0].key) then [] else [CleanField(fs[0], safeIndex)]) + CleanFields(fs[1..], safeIndex)
  }

  predicate IsAction(v: Value) {
    v.Object? && |v.fields| == 1
  }

  function ActionOf(v: Value): string
    requires IsAction(v)
  {
    v.fields[0].key
  }

  function CleanMeta(v: Value, safeIndex: string): Value
    requires IsAction(v)
  {
    var body := v.fields[0].value;
    Object([Field(ActionOf(v), if body.Object? then Object(CleanFields(body.fields, safeIndex)) else body)])
  }

  function Lookup(fs: seq<Field>, key: string): Option<Value> {
    if fs == [] then None else if fs[0].key == key then Some(fs[0].value) else Lookup(fs[1..], key)
  }

  /** Only legacy types go, and only a wildcard target changes. */
  lemma {:induction false} CleanMeaning(fs: seq<Field>, safeIndex: string, key: string)
    requires Distinct(fs)
    ensures Lookup(CleanFields(fs, safeIndex), key) ==
            if key == "_type" || key == "type" then None
            else match Lookup(fs, key)
              case Some(v) => Some(if key == "_index" && v.Text? && '*' in v.s then Text(safeIndex) else v)
              case None => None
  {
    if fs != [] {
      CleanMeaning(fs[1..], safeIndex, key);
      var rest := CleanFields(fs[1..], safeIndex);
      if Legacy(fs[0].key) {
        assert [] + rest == rest;
      } else {
        assert ([CleanField(fs[0], safeIndex)] + rest)[1..] == rest;
      }
    }
  }

  /** The keys other than the legacy types, in order. */
  function OtherKeys(fs: seq<Field>): seq<string> {
    if fs == [] then []
    else (if fs[0].key == "_type" || fs[0].key == "type" then [] else [fs[0].key]) + OtherKeys(fs[1..])
  }

  function KeysOf(fs: seq<Field>): seq<string> {
    seq(|fs|, i requires 0 <= i < |fs| => fs[i].key)
  }

  lemma {:induction false} CleanKeepsOrder(fs: seq<Field>, safeIndex: string)
    ensures KeysOf(CleanFields(fs, safeIndex)) == OtherKeys(fs)
  {
    if fs != [] {
      CleanKeepsOrder(fs[1..], safeIndex);
      var rest := CleanFields(fs[1..], safeIndex);
      assert forall f :: KeysOf([f] + rest) == [f.key] + KeysOf(rest);
      assert [] + rest == rest;
    }
  }

  lemma {:induction false} CleanCanonical(fs: seq<Field>, safeIndex: string)
    requires Distinct(fs) && forall f :: f in fs ==> Canonical(f.value)
    ensures var c := CleanFields(fs, safeIndex);
            Keys(c) <= Keys(fs) && Distinct(c) && forall f :: f in c ==> Canonical(f.value)
  {
    if fs != [] {
      assert forall f :: f in fs[1..] ==> f in fs;
      assert fs[0] in fs;
      CleanCanonical(fs[1..], safeIndex);
      var rest := CleanFields(fs[1..], safeIndex);
      var c := CleanFields(fs, safeIndex);
      assert Keys(rest) <= Keys(fs);
      if Legacy(fs[0].key) {
        assert c == rest;
      } else {
        var f := CleanField(fs[0], safeIndex);
        assert c == [f] + rest && c[1..] == rest && f.key == fs[0].key;
        assert Canonical(f.value);
        forall k | k in Keys(c) ensures k in Keys(fs) {
          assert k == f.key || k in Keys(rest);
        }
      }
    }
  }

  lemma {:induction false} CleanMetaCanonical(v: Value, safeIndex: string)
    requires IsAction(v) && Canonical(v)
    ensures Canonical(CleanMeta(v, safeIndex)) && IsAction(CleanMeta(v, safeIndex))
    ensures ActionOf(CleanMeta(v, safeIndex)) == ActionOf(v)
  {
    var body := v.fields[0].value;
    assert v.fields[0] in v.fields;
    if body.Object? {
      CleanCanonical(body.fields, safeIndex);
    }
    var m := CleanMeta(v, safeIndex);
    assert m.fields[1..] == [];
  }

  lemma {:induction false} CleanFieldsTwice(fs: seq<Field>, safeIndex: string)
    ensures CleanFields(CleanFields(fs, safeIndex), safeIndex) == CleanFields(fs, safeIndex)
  {
    if fs != [] {
      CleanFieldsTwice(fs[1..], safeIndex);
      var rest := CleanFields(fs[1..], safeIndex);
      if Legacy(fs[0].key) {
        assert [] + rest == rest;
      } else {
        var c := [CleanField(fs[0], safeIndex)] + rest;
        assert c[1..] == rest;
      }
    }
  }

  lemma CleanMetaTwice(v: Value, safeIndex: string)
    requires IsAction(v)
    ensures CleanMeta(CleanMeta(v, safeIndex), safeIndex) == CleanMeta(v, safeIndex)
  {
    if v.fields[0].value.Object? {
      CleanFieldsTwice(v.fields[0].value.fields, safeIndex);
    }
  }

  // ---------------------------------------------------------------- all lines

  predicate TakesSource(action: Option<string>) {
    action == Some("index") || action == Some("create") || action == Some("update")
  }

  /** What a line at a header position is. */
  datatype Kind = Blank | Opaque | Odd | Header(v: Value)

  function KindOf(w: World, line: string): (k: Kind)
    ensures k.Header? ==> IsAction(k.v)
  {
    if Strip(line) == "" then Blank
    else match w.load(Strip(line))
      case None => Opaque
      case Some(v) => if IsAction(v) then Header(v) else Odd
  }

  function RewriteHeader(w: World, line: string): string {
    match KindOf(w, line)
    case Blank => ""
    case Header(v) => w.dump(CleanMeta(v, w.safeIndex))
    case _ => line
  }

  /** The action in force after a header line; one that names no action leaves the last one in force. */
  function ActionAfter(w: World, line: string, action: Option<string>): Option<string> {
    match KindOf(w, line)
    case Header(v) => Some(ActionOf(v))
    case _ => action
  }

  /** Does the line that follows this header line belong to it? */
  predicate SourceFollows(w: World, line: string, action: Option<string>) {
    (KindOf(w, line).Header? || KindOf(w, line).Odd?) && TakesSource(ActionAfter(w, line, action))
  }

  /**
    What becomes of a line where a header is expected, and whether the next line is its source: a blank line comes out
    empty and text that cannot be read as it is; an object of a single key has the fields under it cleaned, and takes
    a source if it is an index, create or update; any other value stays as it is and does what the action before did.
  */
  lemma HeaderMeaning(w: World, line: string, before: Option<string>)
    ensures var loaded, header, source := w.load(Strip(line)), RewriteHeader(w, line), SourceFollows(w, line, before);
            var after := ActionAfter(w, line, before);
            if Strip(line) == "" then header == "" && !source && after == before
            else if loaded.None? then header == line && !source && after == before
            else if loaded.value.Object? && |loaded.value.fields| == 1 then
              var action, body := loaded.value.fields[0].key, loaded.value.fields[0].value;
              && header == w.dump(Object([Field(action, if body.Object?
                                            then Object(CleanFields(body.fields, w.safeIndex)) else body)]))
              && after == Some(action) && (source <==> action == "index" || action == "create" || action == "update")
            else
              && header == line && after == before
              && (source <==> before == Some("index") || before == Some("create") || before == Some("update"))
  {
    hide Strip;
  }

  function Rewrite(w: World, lines: seq<string>, action: Option<string>): (out: seq<string>)
    ensures |out| == |lines|
    decreases |lines|
  {
    if lines == [] then []
    else
      var after := ActionAfter(w, lines[0], action);
      if SourceFollows(w, lines[0], action) && |lines| > 1 then
        [RewriteHeader(w, lines[0]), lines[1]] + Rewrite(w, lines[2..], after)
      else [RewriteHeader(w, lines[0])] + Rewrite(w, lines[1..], after)
  }

  /** Which lines are read as headers. */
  function HeaderPositions(w: World, lines: seq<string>, action: Option<string>): (at: seq<bool>)
    ensures |at| == |lines|
    decreases |lines|
  {
    if lines == [] then []
    else
      var after := ActionAfter(w, lines[0], action);
      if SourceFollows(w, lines[0], action) && |lines| > 1 then [true, false] + HeaderPositions(w, lines[2..], after)
      else [true] + HeaderPositions(w, lines[1..], after)
  }

  function Output(w: World, body: string): string {
    Blob(Rewrite(w, SplitLines(body), None))
  }

  lemma {:induction false} RewriteOneLine(w: World, lines: seq<string>, action: Option<string>)
    requires Lawful(w) && AllOneLine(lines)
    ensures AllOneLine(Rewrite(w, lines, action))
    decreases |lines|
  {
    hide KindOf, Canonical, Strip;
    if lines != [] {
      assert OneLine(lines[0]);
      var after := ActionAfter(w, lines[0], action);
      if SourceFollows(w, lines[0], action) && |lines| > 1 {
        RewriteOneLine(w, lines[2..], after);
      } else {
        RewriteOneLine(w, lines[1..], after);
      }
    }
  }

  // ---------------------------------------------------------------- rewriting and reading

  datatype Item = Item(meta: Value, source: Option<string>)

  function Prepend(i: Item, rest: Option<seq<Item>>): Option<seq<Item>> {
    if rest.None? then None else Some([i] + rest.value)
  }

  /** A bulk request read by its grammar: header lines, each followed by a source line if its action needs one. */
  function Parse(w: World, lines: seq<string>): Option<seq<Item>>
    decreases |lines|
  {
    if lines == [] then Some([])
    else match KindOf(w, lines[0])
      case Blank => Parse(w, lines[1..])
      case Header(v) =>
        if TakesSource(Some(ActionOf(v))) && |lines| > 1 then Prepend(Item(v, Some(lines[1])), Parse(w, lines[2..]))
        else Prepend(Item(v, None), Parse(w, lines[1..]))
      case _ => None
  }

  function CleanItems(items: seq<Item>, safeIndex: string): seq<Item>
    requires forall i :: i in items ==> IsAction(i.meta)
  {
    if items == [] then []
    else [Item(CleanMeta(items[0].meta, safeIndex), items[0].source)] + CleanItems(items[1..], safeIndex)
  }

  lemma HeaderKind(w: World, line: string)
    requires Lawful(w)
    ensures KindOf(w, line).Header? ==>
              var v := KindOf(w, line).v;
              && IsAction(v) && Canonical(v)
              && KindOf(w, RewriteHeader(w, line)) == Header(CleanMeta(v, w.safeIndex))
              && ActionOf(CleanMeta(v, w.safeIndex)) == ActionOf(v)
    ensures !KindOf(w, line).Header? ==> KindOf(w, RewriteHeader(w, line)) == KindOf(w, line)
  {
    hide Canonical, OneLine, CleanMeta;
    if KindOf(w, line).Header? {
      CleanMetaCanonical(KindOf(w, line).v, w.safeIndex);
    }
  }

  /** The reading of the rewritten lines is the reading of the lines, cleaned: sources are untouched. */
  lemma {:induction false} ParseRewritten(w: World, lines: seq<string>, action: Option<string>)
    requires Lawful(w) && Parse(w, lines).Some?
    ensures forall i :: i in Parse(w, lines).value ==> IsAction(i.meta)
    ensures Parse(w, Rewrite(w, lines, action)) == Some(CleanItems(Parse(w, lines).value, w.safeIndex))
    decreases |lines|
  {
    hide Lawful, KindOf, CleanMeta, RewriteHeader;
    if lines != [] {
      HeaderKind(w, lines[0]);
      var kind, after := KindOf(w, lines[0]), ActionAfter(w, lines[0], action);
      var out := Rewrite(w, lines, action);
      if kind.Header? && SourceFollows(w, lines[0], action) && |lines| > 1 {
        ParseRewritten(w, lines[2..], after);
        assert out[2..] == Rewrite(w, lines[2..], after);
        Prepended(Item(kind.v, Some(lines[1])), Parse(w, lines[2..]).value);
      } else {
        ParseRewritten(w, lines[1..], after);
        assert out[1..] == Rewrite(w, lines[1..], after);
        if kind.Header? {
          Prepended(Item(kind.v, None), Parse(w, lines[1..]).value);
        }
      }
    }
  }

  lemma Prepended(i: Item, rest: seq<Item>)
    ensures ([i] + rest)[0] == i && ([i] + rest)[1..] == rest
  {}

  /** The last line is read as a source line. */
  predicate LastIsSource(w: World, lines: seq<string>)
    decreases |lines|
  {
    lines != [] &&
    match KindOf(w, lines[0])
    case Header(v) =>
      if TakesSource(Some(ActionOf(v))) && |lines| > 1 then |lines| == 2 || LastIsSource(w, lines[2..])
      else LastIsSource(w, lines[1..])
    case _ => LastIsSource(w, lines[1..])
  }

  lemma Follows(w: World, line: string, action: Option<string>)
    ensures match KindOf(w, line)
            case Header(v) => SourceFollows(w, line, action) <==> TakesSource(Some(ActionOf(v)))
            case Odd => true
            case _ => !SourceFollows(w, line, action)
  {}

  lemma {:induction false} LastIsSourceKept(w: World, lines: seq<string>, action: Option<string>)
    requires Lawful(w) && Parse(w, lines).Some?
    ensures LastIsSource(w, Rewrite(w, lines, action)) == LastIsSource(w, lines)
    ensures LastIsSource(w, lines) ==> lines != [] && Rewrite(w, lines, action)[|lines| - 1] == lines[|lines| - 1]
    decreases |lines|
  {
    hide Lawful, KindOf, CleanMeta, RewriteHeader, ActionAfter, SourceFollows;
    if lines != [] {
      HeaderKind(w, lines[0]);
      Follows(w, lines[0], action);
      var kind, after := KindOf(w, lines[0]), ActionAfter(w, lines[0], action);
      var out := Rewrite(w, lines, action);
      if kind.Header? && SourceFollows(w, lines[0], action) && |lines| > 1 {
        LastIsSourceKept(w, lines[2..], after);
        assert out[2..] == Rewrite(w, lines[2..], after);
      } else {
        LastIsSourceKept(w, lines[1..], after);
        assert out[1..] == Rewrite(w, lines[1..], after);
      }
    }
  }

  /** What a missing last line that was empty does to the reading: it matters only as a source line. */
  lemma {:induction false} DropEmptyLast(w: World, lines: seq<string>)
    requires lines != [] && lines[|lines| - 1] == "" && Parse(w, lines).Some?
    ensures Parse(w, lines[..|lines| - 1]) == Parse(w, lines) <==> !LastIsSource(w, lines)
    ensures Parse(w, lines[..|lines| - 1]).Some? && |Parse(w, lines[..|lines| - 1]).value| == |Parse(w, lines).value|
    decreases |lines|
  {
    hide KindOf, IsAction;
    var n := |lines| - 1;
    var kind := KindOf(w, lines[0]);
    var d := lines[..n];
    if n == 0 {
      EmptyIsBlank(w);
      assert lines[1..] == [];
    } else if kind.Header? && TakesSource(Some(ActionOf(kind.v))) {
      if n == 1 {
        assert d[1..] == [] && lines[2..] == [];
        Prepended(Item(kind.v, None), []);
        Prepended(Item(kind.v, Some("")), []);
      } else {
        DropEmptyLast(w, lines[2..]);
        assert d[2..] == lines[2..][..n - 2] && d[0] == lines[0] && d[1] == lines[1];
        SamePrepend(Item(kind.v, Some(lines[1])), Parse(w, d[2..]), Parse(w, lines[2..]));
      }
    } else {
      DropEmptyLast(w, lines[1..]);
      assert d[1..] == lines[1..][..n - 1] && d[0] == lines[0];
      if kind.Header? {
        SamePrepend(Item(kind.v, None), Parse(w, d[1..]), Parse(w, lines[1..]));
      }
    }
  }

  lemma SamePrepend(i: Item, a: Option<seq<Item>>, b: Option<seq<Item>>)
    ensures Prepend(i, a) == Prepend(i, b) <==> a == b
  {
    if a.Some? && b.Some? {
      Prepended(i, a.value);
      Prepended(i, b.value);
    }
  }

  lemma EmptyIsBlank(w: World)
    ensures KindOf(w, "") == Blank
  {
    StripEmpty();
  }

  /**
    Rewriting commutes with reading: reading the output gives the input's items with only their metadata cleaned,
    exactly if the input does not end in an empty source line.
  */
  lemma {:induction false} CommutesExactly(w: World, body: string)
    requires Lawful(w) && Parse(w, SplitLines(body)).Some?
    ensures var lines := SplitLines(body);
            && (forall i :: i in Parse(w, lines).value ==> IsAction(i.meta))
            && (Parse(w, SplitLines(Output(w, body))) == Some(CleanItems(Parse(w, lines).value, w.safeIndex)) <==>
                !(LastIsSource(w, lines) && lines[|lines| - 1] == ""))
  {
    hide Lawful, CleanItems, KindOf, OneLine;
    var lines := SplitLines(body);
    var out := Rewrite(w, lines, None);
    RewriteOneLine(w, lines, None);
    SplitBlob(out);
    ParseRewritten(w, lines, None);
    LastIsSourceKept(w, lines, None);
    if out == [] {
      BlankLine(w);
    } else if out[|out| - 1] == "" {
      if |out| > 1 {
        DropEmptyLast(w, out);
      } else {
        OneLineNoSource(w, lines);
      }
    }
  }

  lemma {:induction false} BlankLine(w: World)
    ensures Parse(w, [""]) == Some([]) && Parse(w, []) == Some([])
  {
    StripEmpty();
    assert [""][1..] == [];
  }

  lemma {:induction false} OneLineNoSource(w: World, lines: seq<string>)
    requires |lines| == 1
    ensures !LastIsSource(w, lines)
  {
    assert lines[1..] == [];
  }

  // ---------------------------------------------------------------- idempotence

  lemma {:induction false} RewriteTwice(w: World, lines: seq<string>, action: Option<string>)
    requires Lawful(w)
    ensures Rewrite(w, Rewrite(w, lines, action), action) == Rewrite(w, lines, action)
    decreases |lines|
  {
    hide Lawful, KindOf, CleanMeta, RewriteHeader;
    if lines != [] {
      HeaderTwice(w, lines[0]);
      HeaderKind(w, lines[0]);
      var after := ActionAfter(w, lines[0], action);
      var out := Rewrite(w, lines, action);
      assert ActionAfter(w, out[0], action) == after;
      assert SourceFollows(w, out[0], action) == SourceFollows(w, lines[0], action);
      if SourceFollows(w, lines[0], action) && |lines| > 1 {
        RewriteTwice(w, lines[2..], after);
        assert out[2..] == Rewrite(w, lines[2..], after);
      } else {
        RewriteTwice(w, lines[1..], after);
        assert out[1..] == Rewrite(w, lines[1..], after);
      }
    }
  }

  lemma HeaderTwice(w: World, line: string)
    requires Lawful(w)
    ensures RewriteHeader(w, RewriteHeader(w, line)) == RewriteHeader(w, line)
  {
    hide Lawful, CleanMeta;
    HeaderKind(w, line);
    var kind := KindOf(w, line);
    if kind.Header? {
      CleanMetaTwice(kind.v, w.safeIndex);
    }
  }

  /** A fixed point stays one without its last line. */
  lemma {:induction false} FixedWithoutLast(w: World, out: seq<string>, action: Option<string>)
    requires out != [] && Rewrite(w, out, action) == out
    ensures Rewrite(w, out[..|out| - 1], action) == out[..|out| - 1]
    decreases |out|
  {
    hide ActionAfter, SourceFollows, RewriteHeader;
    var n := |out| - 1;
    if n > 0 {
      var after := ActionAfter(w, out[0], action);
      var d := out[..n];
      if SourceFollows(w, out[0], action) {
        assert out[2..] == Rewrite(w, out[2..], after);
        if n == 1 {
          assert d[1..] == [];
        } else {
          FixedWithoutLast(w, out[2..], after);
          assert d[2..] == out[2..][..n - 2];
        }
      } else {
        assert out[1..] == Rewrite(w, out[1..], after);
        FixedWithoutLast(w, out[1..], after);
        assert d[1..] == out[1..][..n - 1];
      }
    }
  }

  /** Two trailing lines that come out empty, behind at least one other line. */
  predicate EndsInTwoEmpty(w: World, lines: seq<string>) {
    && |lines| > 2
    && ComesOutEmpty(w, lines, |lines| - 1) && ComesOutEmpty(w, lines, |lines| - 2)
  }

  /** The line is empty, or it is blank and stands where a header is expected. */
  predicate ComesOutEmpty(w: World, lines: seq<string>, i: nat)
    requires i < |lines|
  {
    lines[i] == "" || (Strip(lines[i]) == "" && HeaderPositions(w, lines, None)[i])
  }

  /**
    Rewriting twice is rewriting once, exactly if the body does not consist of three or more lines of which the last
    two are empty (or blank where a header is expected).
  */
  lemma {:induction false} IdempotentExactly(w: World, body: string)
    requires Lawful(w)
    ensures Output(w, Output(w, body)) == Output(w, body) <==> !EndsInTwoEmpty(w, SplitLines(body))
  {
    hide Lawful, KindOf, OneLine, Rewrite, Blob, Terminate, HeaderPositions, Strip;
    var lines := SplitLines(body);
    var out := Rewrite(w, lines, None);
    RewriteOneLine(w, lines, None);
    SplitBlob(out);
    var n := Normal(out);
    assert Rewrite(w, n, None) == n by { NormalFixed(w, lines); }
    BlobTerminates(out);
    BlobTerminates(n);
    TerminateInjective(Normal(n), n);
    if |lines| > 2 {
      EmptyExactly(w, lines, None, |lines| - 1);
      EmptyExactly(w, lines, None, |lines| - 2);
    }
  }

  /** For example, three empty lines become two, and two become one. */
  lemma NotAlwaysIdempotent(w: World)
    requires Lawful(w)
    ensures Output(w, Output(w, "\n\n\n")) != Output(w, "\n\n\n")
  {
    hide Output, Lawful, HeaderPositions, Strip;
    assert "\n\n\n"[1..] == "\n\n" && "\n\n"[1..] == "\n" && "\n"[1..] == "";
    assert "\n\n\n"[..0] == "" && "\n\n"[..0] == "" && "\n"[..0] == "";
    assert SplitLines("\n") == [""];
    assert SplitLines("\n\n") == ["", ""];
    assert SplitLines("\n\n\n") == ["", "", ""];
    IdempotentExactly(w, "\n\n\n");
  }

  lemma {:induction false} NormalFixed(w: World, lines: seq<string>)
    requires Lawful(w)
    ensures var n := Normal(Rewrite(w, lines, None)); Rewrite(w, n, None) == n
  {
    hide Lawful, Rewrite;
    var out := Rewrite(w, lines, None);
    RewriteTwice(w, lines, None);
    if out == [] {
      RewriteBlank(w);
    } else if Normal(out) != out {
      FixedWithoutLast(w, out, None);
    }
  }

  lemma {:induction false} RewriteBlank(w: World)
    ensures Rewrite(w, [""], None) == [""]
  {
    StripEmpty();
    assert [""][1..] == [];
  }

  /** A rewritten line is empty exactly if the line was, or was blank where a header is expected. */
  lemma {:induction false} EmptyExactly(w: World, lines: seq<string>, action: Option<string>, i: nat)
    requires Lawful(w) && i < |lines|
    ensures Rewrite(w, lines, action)[i] == "" <==>
            lines[i] == "" || (Strip(lines[i]) == "" && HeaderPositions(w, lines, action)[i])
    decreases |lines|
  {
    hide Canonical, CleanMeta, OneLine;
    var after := ActionAfter(w, lines[0], action);
    StripEmpty();
    if SourceFollows(w, lines[0], action) && |lines| > 1 {
      if i >= 2 {
        EmptyExactly(w, lines[2..], after, i - 2);
      }
    } else if i >= 1 {
      EmptyExactly(w, lines[1..], after, i - 1);
    }
  }

  /** The output always ends in a newline. */
  lemma OutputTerminated(w: World, body: string)
    ensures Output(w, body) != "" && Output(w, body)[|Output(w, body)| - 1] == '\n'
  {
    hide Rewrite;
  }

  // ---------------------------------------------------------------- inherited actions

  /** Where a reader by the grammar, in which a line that names no action takes no source, expects headers. */
  function GrammarPositions(w: World, lines: seq<string>): (at: seq<bool>)
    ensures |at| == |lines|
    decreases |lines|
  {
    if lines == [] then []
    else if KindOf(w, lines[0]).Header? && SourceFollows(w, lines[0], None) && |lines| > 1 then
      [true, false] + GrammarPositions(w, lines[2..])
    else [true] + GrammarPositions(w, lines[1..])
  }

  /**
    At a header position stands a line that names no action, an action that takes a source is in force,
    and a line follows.
  */
  predicate Inherits(w: World, lines: seq<string>, action: Option<string>)
    decreases |lines|
  {
    lines != [] &&
    if SourceFollows(w, lines[0], action) && |lines| > 1 then
      KindOf(w, lines[0]).Odd? || Inherits(w, lines[2..], ActionAfter(w, lines[0], action))
    else Inherits(w, lines[1..], ActionAfter(w, lines[0], action))
  }

  /**
    The rewriter takes the same lines for headers as the grammar does exactly if no line inherits an action: a line
    that names no action makes the line behind it escape rewriting when the last action named takes a source.
  */
  lemma {:induction false} EscapesExactly(w: World, lines: seq<string>, action: Option<string>)
    ensures HeaderPositions(w, lines, action) == GrammarPositions(w, lines) <==> !Inherits(w, lines, action)
    decreases |lines|
  {
    hide KindOf;
    if lines != [] {
      var here, grammar := HeaderPositions(w, lines, action), GrammarPositions(w, lines);
      var after := ActionAfter(w, lines[0], action);
      if SourceFollows(w, lines[0], action) && |lines| > 1 {
        if KindOf(w, lines[0]).Odd? {
          assert here[1] == false;
          assert grammar == [true] + GrammarPositions(w, lines[1..]);
          FirstIsHeader(w, lines[1..]);
          assert grammar[1] == true;
        } else {
          EscapesExactly(w, lines[2..], after);
          assert here[2..] == HeaderPositions(w, lines[2..], after) && grammar[2..] == GrammarPositions(w, lines[2..]);
          assert here == [true, false] + here[2..] && grammar == [true, false] + grammar[2..];
        }
      } else {
        EscapesExactly(w, lines[1..], after);
        assert here[1..] == HeaderPositions(w, lines[1..], after) && grammar[1..] == GrammarPositions(w, lines[1..]);
        assert here == [true] + here[1..] && grammar == [true] + grammar[1..];
      }
    }
  }

  lemma {:induction false} FirstIsHeader(w: World, lines: seq<string>)
    requires lines != []
    ensures GrammarPositions(w, lines)[0]
  {}

  /** What stands where a source is expected is not rewritten. */
  lemma {:induction false} SourcesUntouched(w: World, lines: seq<string>, action: Option<string>, i: nat)
    requires i < |lines|
    ensures Rewrite(w, lines, action)[i] == if HeaderPositions(w, lines, action)[i]
        then RewriteHeader(w, lines[i]) else lines[i]
    decreases |lines|
  {
    hide KindOf, RewriteHeader;
    var after := ActionAfter(w, lines[0], action);
    if SourceFollows(w, lines[0], action) && |lines| > 1 {
      if i >= 2 {
        SourcesUntouched(w, lines[2..], after, i - 2);
      }
    } else if i >= 1 {
      SourcesUntouched(w, lines[1..], after, i - 1);
    }
  }

  // ---------------------------------------------------------------- the loop

  lemma {:induction false} RewriteStep(w: World, lines: seq<string>, i: nat, action: Option<string>)
    requires i < |lines|
    ensures var line := lines[i];
            var after := ActionAfter(w, line, action);
            Rewrite(w, lines[i..], action) ==
            if SourceFollows(w, line, action) && i + 1 < |lines| then
              [RewriteHeader(w, line), lines[i + 1]] + Rewrite(w, lines[i + 2..], after)
            else [RewriteHeader(w, line)] + Rewrite(w, lines[i + 1..], after)
  {
    hide KindOf, RewriteHeader;
    assert lines[i..][1..] == lines[i + 1..];
    if i + 1 < |lines| {
      assert lines[i..][2..] == lines[i + 2..];
    }
  }

  lemma Regroup(a: seq<string>, b: seq<string>, c: seq<string>)
    ensures a + (b + c) == a + b + c
  {}

  /** What a line at a header position becomes, and what follows it, by what the line holds. */
  lemma HeaderCases(w: World, line: string, action: Option<string>)
    ensures var meta, header, after := w.load(Strip(line)), RewriteHeader(w, line), ActionAfter(w, line, action);
            if Strip(line) == "" then header == "" && after == action && !SourceFollows(w, line, action)
            else if meta.None? then header == line && after == action && !SourceFollows(w, line, action)
            else
              && SourceFollows(w, line, action) == TakesSource(after)
              && if IsAction(meta.value)
                 then header == w.dump(CleanMeta(meta.value, w.safeIndex)) && after == Some(ActionOf(meta.value))
                 else header == line && after == action
  {
    hide Strip, CleanMeta;
  }

  method RewriteBulkTypeless(w: World, ndjson: string) returns (blob: string)
    ensures blob == Output(w, ndjson)
  {
    hide Blob, Strip, Rewrite, CleanMeta, OneLine, RewriteHeader, ActionAfter, SourceFollows;
    var outLines: seq<string> := [];
    var lines := SplitLines(ndjson);
    var action: Option<string> := None;
    var i := 0;
    assert lines[0..] == lines;
    while i < |lines|
      invariant 0 <= i <= |lines|
      invariant outLines + Rewrite(w, lines[i..], action) == Rewrite(w, lines, None)
    {
      var line := lines[i];
      RewriteStep(w, lines, i, action);
      HeaderCases(w, line, action);
      var stripped := Strip(line);
      if stripped == "" {
        Regroup(outLines, [""], Rewrite(w, lines[i + 1..], action));
        outLines := outLines + [""];
        i := i + 1;
        continue;
      }
      var meta := w.load(stripped);
      if meta.None? {
        Regroup(outLines, [line], Rewrite(w, lines[i + 1..], action));
        outLines := outLines + [line];
        i := i + 1;
        continue;
      }
      ghost var before, follows := outLines, SourceFollows(w, line, action) && i + 1 < |lines|;
      ghost var written := RewriteHeader(w, line);
      if IsAction(meta.value) {
        action := Some(ActionOf(meta.value));
        outLines := outLines + [w.dump(CleanMeta(meta.value, w.safeIndex))];
      } else {
        outLines := outLines + [line];
      }
      assert outLines == before + [written];
      i := i + 1;
      if TakesSource(action) {
        if i < |lines| {
          assert follows;
          Regroup(before, [written, lines[i]], Rewrite(w, lines[i + 1..], action));
          assert before + [written, lines[i]] == outLines + [lines[i]];
          outLines := outLines + [lines[i]];
          i := i + 1;
          continue;
        }
      }
      assert !follows;
      Regroup(before, [written], Rewrite(w, lines[i..], action));
    }
    WholeRewritten(w, lines, action, outLines);
    blob := Blob(outLines);
  }

  lemma {:induction false} WholeRewritten(w: World, lines: seq<string>, action: Option<string>, outLines: seq<string>)
    requires outLines + Rewrite(w, lines[|lines|..], action) == Rewrite(w, lines, None)
    ensures outLines == Rewrite(w, lines, None)
  {
    assert lines[|lines|..] == [];
    assert outLines + [] == outLines;
  }
}
