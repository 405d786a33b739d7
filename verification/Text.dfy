/** White space around a text: what counts as white space, and trimming it. */
module Text {

  /** White space in bytes. */
  predicate IsBlank(c: char) {
    c == ' ' || c == '\t' || c == '\n' || c == '\r' || c == '\U{0B}' || c == '\U{0C}'
  }

  /** White space in the texts of .NET. */
  predicate IsWhite(c: char) {
    || '\t' <= c <= '\r' || c == ' ' || c == '\U{85}' || c == '\U{A0}' || c == '\U{1680}'
    || '\U{2000}' <= c <= '\U{200A}' || c == '\U{2028}' || c == '\U{2029}' || c == '\U{202F}'
    || c == '\U{205F}' || c == '\U{3000}'
  }

  /** White space in the texts of Python, which counts four separators in. */
  predicate IsWhiteInPython(c: char) {
    IsWhite(c) || '\U{1C}' <= c <= '\U{1F}'
  }

  function TrimOf(s: string, white: char -> bool): string {
    if s == "" then ""
    else if white(s[0]) then TrimOf(s[1..], white)
    else if white(s[|s| - 1]) then TrimOf(s[..|s| - 1], white)
    else s
  }

  function Strip(s: string): string {
    TrimOf(s, IsBlank)
  }

  lemma StripEmpty()
    ensures Strip("") == ""
  {}

  /** A text with no white space at its ends stays as it is. */
  lemma {:induction false} TrimNothing(s: string, white: char -> bool)
    requires s != "" ==> !white(s[0]) && !white(s[|s| - 1])
    ensures TrimOf(s, white) == s
  {}

  /** Trimming a white character at the end first makes no difference. */
  lemma {:induction false} TrimEnd(s: string, white: char -> bool)
    requires s != "" && white(s[|s| - 1])
    ensures TrimOf(s, white) == TrimOf(s[..|s| - 1], white)
    decreases |s|
  {
    if white(s[0]) && |s| > 1 {
      TrimEnd(s[1..], white);
      assert s[1..][..|s| - 2] == s[..|s| - 1][1..];
    }
  }

  /** Trimming less first makes no difference. */
  lemma {:induction false} TrimLess(s: string, less: char -> bool, white: char -> bool)
    requires forall c :: less(c) ==> white(c)
    ensures TrimOf(TrimOf(s, less), white) == TrimOf(s, white)
    decreases |s|
  {
    if s == "" {
    } else if less(s[0]) {
      TrimLess(s[1..], less, white);
    } else if less(s[|s| - 1]) {
      TrimLess(s[..|s| - 1], less, white);
      TrimEnd(s, white);
    }
  }
}
