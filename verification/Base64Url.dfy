/**
  Unpadded base64url (section 5 of RFC 4648): the encoder, and the two decoders, which treat stray characters
  differently but agree on everything an encoder can produce.
*/
module Base64Url {
  import opened Wrappers

  type Byte = x: int | 0 <= x < 256
  type Sextet = x: int | 0 <= x < 64

  // ---------------------------------------------------------------- the alphabet

  function Digit(v: Sextet): char {
    if v < 26 then ('A' as int + v) as char
    else if v < 52 then ('a' as int + (v - 26)) as char
    else if v < 62 then ('0' as int + (v - 52)) as char
    else if v == 62 then '-' else '_'
  }

  /** The value of a digit; both alphabets of RFC 4648 are understood, since decoders translate first. */
  function Value(c: char): Option<Sextet> {
    if 'A' <= c <= 'Z' then Some(c as int - 'A' as int)
    else if 'a' <= c <= 'z' then Some(c as int - 'a' as int + 26)
    else if '0' <= c <= '9' then Some(c as int - '0' as int + 52)
    else if c == '-' || c == '+' then Some(62)
    else if c == '_' || c == '/' then Some(63)
    else None
  }

  predicate IsDigit(c: char) {
    Value(c).Some?
  }

  predicate AllDigits(s: string) {
    forall i :: 0 <= i < |s| ==> IsDigit(s[i])
  }

  predicate UrlSafe(c: char) {
    IsDigit(c) && c != '+' && c != '/'
  }

  lemma ValueOfDigit(v: Sextet)
    ensures Value(Digit(v)) == Some(v) && UrlSafe(Digit(v))
  {}

  // ---------------------------------------------------------------- encoding

  function First(a: Byte): Sextet { a / 4 }
  function Second(a: Byte, b: Byte): Sextet { a % 4 * 16 + b / 16 }
  function Third(b: Byte, c: Byte): Sextet { b % 16 * 4 + c / 64 }
  function Fourth(c: Byte): Sextet { c % 64 }

  function Encode(b: seq<Byte>): string {
    if |b| == 0 then ""
    else if |b| == 1 then [Digit(First(b[0])), Digit(Second(b[0], 0))]
    else if |b| == 2 then [Digit(First(b[0])), Digit(Second(b[0], b[1])), Digit(Third(b[1], 0))]
    else Group(b[0], b[1], b[2]) + Encode(b[3..])
  }

  function Group(a: Byte, b: Byte, c: Byte): string {
    [Digit(First(a)), Digit(Second(a, b)), Digit(Third(b, c)), Digit(Fourth(c))]
  }

  predicate AllSafe(s: string) {
    forall i :: 0 <= i < |s| ==> UrlSafe(s[i])
  }

  lemma AllSafeConcat(a: string, b: string)
    requires AllSafe(a) && AllSafe(b)
    ensures AllSafe(a + b)
  {}

  lemma GroupSafe(a: Byte, b: Byte, c: Byte)
    ensures AllSafe(Group(a, b, c)[..2]) && AllSafe(Group(a, b, c)[..3]) && AllSafe(Group(a, b, c))
  {
    hide Digit, Value, UrlSafe, First, Second, Third, Fourth;
    ValueOfDigit(First(a));
    ValueOfDigit(Second(a, b));
    ValueOfDigit(Third(b, c));
    ValueOfDigit(Fourth(c));
  }

  /** Encoded text has no padding, no dot and no space, and never one digit more than a multiple of four. */
  lemma {:induction false} EncodedText(b: seq<Byte>)
    ensures AllSafe(Encode(b))
    ensures |Encode(b)| % 4 != 1 && (b != [] ==> Encode(b) != "")
  {
    hide Digit, First, Second, Third, Fourth, AllSafe;
    if |b| > 2 {
      EncodedText(b[3..]);
      GroupSafe(b[0], b[1], b[2]);
      AllSafeConcat(Group(b[0], b[1], b[2]), Encode(b[3..]));
    } else if |b| > 0 {
      var c := if |b| > 1 then b[1] else 0;
      GroupSafe(b[0], c, 0);
      assert Encode(b) == Group(b[0], c, 0)[..|b| + 1];
    } else {
      assert AllSafe(Encode(b)) by { NoneUnsafe(); }
    }
  }

  lemma NoneUnsafe()
    ensures AllSafe("")
  {}

  // ---------------------------------------------------------------- the strict decoder

  function Byte1(p: Sextet, q: Sextet): Byte { p * 4 + q / 16 }
  function Byte2(q: Sextet, r: Sextet): Byte { q % 16 * 16 + r / 4 }
  function Byte3(r: Sextet, s: Sextet): Byte { r % 4 * 64 + s }

  function Quad(t: string): Option<seq<Byte>>
    requires |t| == 4
  {
    if !IsDigit(t[0]) || !IsDigit(t[1]) then None
    else
      var p, q := Value(t[0]).value, Value(t[1]).value;
      if t[2] == '=' then (if t[3] == '=' then Some([Byte1(p, q)]) else None)
      else if !IsDigit(t[2]) then None
      else
        var r := Value(t[2]).value;
        if t[3] == '=' then Some([Byte1(p, q), Byte2(q, r)])
        else if !IsDigit(t[3]) then None
        else Some([Byte1(p, q), Byte2(q, r), Byte3(r, Value(t[3]).value)])
  }

  /** Groups of four digits, of which only the last may end in padding. */
  function Strict(s: string): Option<seq<Byte>> {
    if s == "" then Some([])
    else if |s| < 4 then None
    else match Quad(s[..4])
      case None => None
      case Some(head) =>
        if |head| < 3 then (if |s| == 4 then Some(head) else None)
        else match Strict(s[4..])
          case None => None
          case Some(rest) => Some(head + rest)
  }

  predicate IsSpace(c: char) {
    c == ' ' || c == '\t' || c == '\n' || c == '\r'
  }

  function WithoutSpaces(s: string): string {
    if s == "" then "" else (if IsSpace(s[0]) then "" else [s[0]]) + WithoutSpaces(s[1..])
  }

  function StrictPad(n: nat): string {
    if n % 4 == 2 then "==" else if n % 4 == 3 then "=" else ""
  }

  /** LicenceReader.B64UrlDecode: pads by the length, then decodes strictly, skipping spaces. */
  function DecodeStrict(s: string): Option<seq<Byte>> {
    Strict(WithoutSpaces(s + StrictPad(|s|)))
  }

  // ---------------------------------------------------------------- the lenient decoder

  function Padding(n: nat): string {
    if n == 0 then "" else "=" + Padding(n - 1)
  }

  /**
    Character by character: characters outside the alphabet are skipped, padding is skipped unless it completes a
    group, and digits left over at the end are an error. `pos` digits of a group were read, the last being `left`.
  */
  function Lenient(s: string, pos: int, left: Sextet, pads: int): Option<seq<Byte>>
    decreases |s|
  {
    if s == "" then (if pos == 0 then Some([]) else None)
    else if s[0] == '=' then
      (if pos >= 2 && pos + pads + 1 >= 4 then Some([])
       else Lenient(s[1..], pos, left, if pos >= 2 then pads + 1 else pads))
    else match Value(s[0])
      case None => Lenient(s[1..], pos, left, pads)
      case Some(v) =>
        if pos == 0 then Lenient(s[1..], 1, v, 0)
        else match Lenient(s[1..], (pos + 1) % 4, v, 0)
          case None => None
          case Some(rest) =>
            Some([if pos == 1 then Byte1(left, v) else if pos == 2 then Byte2(left, v) else Byte3(left, v)] + rest)
  }

  function LenientPad(n: nat): string {
    Padding((4 - n % 4) % 4)
  }

  predicate Ascii(s: string) {
    forall i :: 0 <= i < |s| ==> s[i] < '\U{80}'
  }

  /** _b64url_decode: refuses characters outside ASCII, pads to a multiple of four, then decodes leniently. */
  function DecodeLenient(s: string): Option<seq<Byte>> {
    if Ascii(s) then Lenient(s + LenientPad(|s|), 0, 0, 0) else None
  }

  // ---------------------------------------------------------------- what digits decode to

  /** Groups of four digits, then two, three or none: the meaning of an unpadded text. */
  function Digits(s: string): Option<seq<Byte>>
    requires AllDigits(s)
  {
    if s == "" then Some([])
    else if |s| == 1 then None
    else
      var p, q := Value(s[0]).value, Value(s[1]).value;
      if |s| == 2 then Some([Byte1(p, q)])
      else
        var r := Value(s[2]).value;
        if |s| == 3 then Some([Byte1(p, q), Byte2(q, r)])
        else match Digits(s[4..])
          case None => None
          case Some(rest) => Some([Byte1(p, q), Byte2(q, r), Byte3(r, Value(s[3]).value)] + rest)
  }

  lemma GroupBack(a: Byte, b: Byte, c: Byte)
    ensures Byte1(First(a), Second(a, b)) == a
    ensures Byte2(Second(a, b), Third(b, c)) == b
    ensures Byte3(Third(b, c), Fourth(c)) == c
  {}

  lemma {:induction false} DigitsOfEncoded(b: seq<Byte>)
    ensures AllDigits(Encode(b)) && Digits(Encode(b)) == Some(b)
  {
    hide Digit, Value, First, Second, Third, Fourth, Byte1, Byte2, Byte3, UrlSafe;
    EncodedText(b);
    assert AllDigits(Encode(b)) by {
      forall i | 0 <= i < |Encode(b)| ensures IsDigit(Encode(b)[i]) {
        SafeIsDigit(Encode(b)[i]);
      }
    }
    if |b| > 0 {
      var b1, b2 := if |b| > 1 then b[1] else 0, if |b| > 2 then b[2] else 0;
      GroupBack(b[0], b1, b2);
      ValueOfDigit(First(b[0]));
      ValueOfDigit(Second(b[0], b1));
      ValueOfDigit(Third(b1, b2));
      ValueOfDigit(Fourth(b2));
      if |b| > 2 {
        DigitsOfEncoded(b[3..]);
        assert Encode(b)[4..] == Encode(b[3..]);
        assert b == [b[0], b[1], b[2]] + b[3..];
      } else if |b| == 2 {
        assert b == [b[0], b[1]];
      } else {
        assert b == [b[0]];
      }
    }
  }

  lemma SafeIsDigit(c: char)
    requires UrlSafe(c)
    ensures IsDigit(c)
  {}

  lemma DigitFacts(c: char)
    requires IsDigit(c)
    ensures c != '=' && !IsSpace(c)
  {}

  // ---------------------------------------------------------------- both decoders on digits

  lemma {:induction false} NoSpaces(s: string, pad: string)
    requires AllDigits(s) && (forall i :: 0 <= i < |pad| ==> pad[i] == '=') && |pad| <= 2
    ensures WithoutSpaces(s + pad) == s + pad
  {
    hide Value, IsDigit;
    if s == "" {
      assert s + pad == pad;
      NoSpacesInPadding(pad);
    } else {
      DigitFacts(s[0]);
      assert (s + pad)[1..] == s[1..] + pad;
      NoSpaces(s[1..], pad);
    }
  }

  lemma {:induction false} NoSpacesInPadding(pad: string)
    requires (forall i :: 0 <= i < |pad| ==> pad[i] == '=') && |pad| <= 2
    ensures WithoutSpaces(pad) == pad
  {
    if pad != "" {
      if |pad| == 2 {
        assert pad[1..][1..] == "" && WithoutSpaces(pad[1..][1..]) == "";
        assert WithoutSpaces(pad[1..]) == pad[1..];
      } else {
        assert WithoutSpaces(pad[1..]) == "";
      }
    }
  }

  lemma {:induction false} StrictOnDigits(s: string)
    requires AllDigits(s)
    ensures Strict(s + StrictPad(|s|)) == Digits(s)
  {
    hide Value, Byte1, Byte2, Byte3;
    var t := s + StrictPad(|s|);
    if |s| == 0 {
    } else if |s| < 4 {
      forall i | 0 <= i < |s| ensures s[i] != '=' {
        DigitFacts(s[i]);
      }
      if |s| > 1 {
        assert t[..4] == t;
      }
    } else {
      forall i | 0 <= i < 4 ensures s[i] != '=' && t[..4][i] == s[i] {
        DigitFacts(s[i]);
      }
      StrictOnDigits(s[4..]);
      assert t[4..] == s[4..] + StrictPad(|s[4..]|);
    }
  }

  lemma Pads()
    ensures Padding(0) == "" && Padding(1) == "=" && Padding(2) == "==" && Padding(3) == "==="
  {
    assert Padding(1) == "=" + Padding(0);
    assert Padding(2) == "=" + Padding(1);
    assert Padding(3) == "=" + Padding(2);
  }

  /** Reading one digit. */
  lemma {:induction false} LenientDigit(s: string, pos: int, left: Sextet, pads: int)
    requires s != "" && IsDigit(s[0]) && 0 <= pos < 4
    ensures var v := Value(s[0]).value;
            var rest := Lenient(s[1..], (pos + 1) % 4, v, 0);
            Lenient(s, pos, left, pads) ==
            if pos == 0 || rest.None? then rest
            else
              var first := if pos == 1 then Byte1(left, v) else if pos == 2 then Byte2(left, v) else Byte3(left, v);
              Some([first] + rest.value)
  {
    DigitFacts(s[0]);
  }

  function Join(head: seq<Byte>, rest: Option<seq<Byte>>): Option<seq<Byte>> {
    if rest.None? then None else Some(head + rest.value)
  }

  /** Reading a whole group. */
  lemma {:induction false} FourDigits(t: string, left: Sextet, pads: int)
    requires |t| >= 4 && IsDigit(t[0]) && IsDigit(t[1]) && IsDigit(t[2]) && IsDigit(t[3])
    ensures var p, q, r, s := Value(t[0]).value, Value(t[1]).value, Value(t[2]).value, Value(t[3]).value;
            Lenient(t, 0, left, pads) == Join([Byte1(p, q), Byte2(q, r), Byte3(r, s)], Lenient(t[4..], 0, s, 0))
  {
    hide Value, Byte1, Byte2, Byte3, Lenient;
    TwoDigits(t, left, pads);
    assert t[2..][0] == t[2] && t[2..][1..] == t[3..] && t[3..][0] == t[3] && t[3..][1..] == t[4..];
    LenientDigit(t[2..], 2, Value(t[1]).value, 0);
    LenientDigit(t[3..], 3, Value(t[2]).value, 0);
    var rest := Lenient(t[4..], 0, Value(t[3]).value, 0);
    var p, q, r, s := Value(t[0]).value, Value(t[1]).value, Value(t[2]).value, Value(t[3]).value;
    if rest.Some? {
      assert [Byte1(p, q)] + ([Byte2(q, r)] + ([Byte3(r, s)] + rest.value))
          == [Byte1(p, q), Byte2(q, r), Byte3(r, s)] + rest.value;
    }
  }

  lemma {:induction false} TwoDigits(t: string, left: Sextet, pads: int)
    requires |t| >= 2 && IsDigit(t[0]) && IsDigit(t[1])
    ensures var p, q := Value(t[0]).value, Value(t[1]).value;
            Lenient(t, 0, left, pads) == Join([Byte1(p, q)], Lenient(t[2..], 2, q, 0))
  {
    hide Value, Byte1, Lenient;
    LenientDigit(t, 0, left, pads);
    assert t[1..][0] == t[1] && t[1..][1..] == t[2..];
    LenientDigit(t[1..], 1, Value(t[0]).value, 0);
  }

  lemma {:induction false} LastDigits(s: string, left: Sextet, pads: int)
    requires 0 < |s| < 4 && AllDigits(s)
    ensures Lenient(s + LenientPad(|s|), 0, left, pads) == Digits(s)
  {
    hide Lenient, Padding;
    Pads();
    var t := s + LenientPad(|s|);
    assert IsDigit(s[0]);
    if |s| == 1 {
      hide Value, Byte1, Byte2;
      LenientDigit(t, 0, left, pads);
      assert t[1..] == "===";
      OnePadded(Value(s[0]).value);
    } else {
      assert IsDigit(s[1]);
      TwoDigits(t, left, pads);
      if |s| == 2 {
        assert t[2..] == "==";
        LastTwo(s);
      } else {
        assert t[2..] == [s[2]] + "=";
        LastThree(s);
      }
    }
  }

  lemma {:induction false} LastTwo(s: string)
    requires |s| == 2 && AllDigits(s)
    ensures Join([Byte1(Value(s[0]).value, Value(s[1]).value)], Lenient("==", 2, Value(s[1]).value, 0)) == Digits(s)
  {
    hide Value, Byte1, Lenient;
    TwoPadded(Value(s[1]).value);
    var b1 := Byte1(Value(s[0]).value, Value(s[1]).value);
    assert [b1] + [] == [b1];
  }

  lemma {:induction false} LastThree(s: string)
    requires |s| == 3 && AllDigits(s)
    ensures Join([Byte1(Value(s[0]).value, Value(s[1]).value)], Lenient([s[2]] + "=", 2, Value(s[1]).value, 0))
        == Digits(s)
  {
    hide Value, Byte1, Byte2, Lenient;
    var t := [s[2]] + "=";
    assert t[1..] == "=";
    LenientDigit(t, 2, Value(s[1]).value, 0);
    ThreePadded(Value(s[2]).value);
    var b1, b2 := Byte1(Value(s[0]).value, Value(s[1]).value), Byte2(Value(s[1]).value, Value(s[2]).value);
    assert [b1] + ([b2] + []) == [b1, b2];
  }

  lemma {:induction false} LenientOnDigits(s: string, left: Sextet, pads: int)
    requires AllDigits(s)
    ensures Lenient(s + LenientPad(|s|), 0, left, pads) == Digits(s)
    decreases |s|
  {
    hide Value, Byte1, Byte2, Byte3, Lenient, Padding;
    Pads();
    var t := s + LenientPad(|s|);
    if s == "" {
      assert t == "";
      LenientEmpty(left, pads);
    } else if |s| < 4 {
      LastDigits(s, left, pads);
    } else {
      FourDigits(t, left, pads);
      LenientOnDigits(s[4..], Value(s[3]).value, 0);
      assert (|s| - 4) % 4 == |s| % 4;
      assert t[4..] == s[4..] + LenientPad(|s[4..]|);
    }
  }

  lemma {:induction false} LenientEmpty(left: Sextet, pads: int)
    ensures Lenient("", 0, left, pads) == Some([])
  {}

  lemma {:induction false} OnePadded(left: Sextet)
    ensures Lenient("===", 1, left, 0) == None
  {
    assert "==="[1..] == "==" && "=="[1..] == "=" && "="[1..] == "";
    assert Lenient("", 1, left, 0) == None;
    assert Lenient("=", 1, left, 0) == None;
    assert Lenient("==", 1, left, 0) == None;
  }

  lemma {:induction false} TwoPadded(left: Sextet)
    ensures Lenient("==", 2, left, 0) == Some([])
  {
    assert "=="[1..] == "=";
    assert Lenient("=", 2, left, 1) == Some([]);
  }

  lemma {:induction false} ThreePadded(left: Sextet)
    ensures Lenient("=", 3, left, 0) == Some([])
  {}

  /** On texts made of digits the two decoders agree, and they fail exactly on lengths 1 modulo 4. */
  lemma {:induction false} DecodersAgree(s: string)
    requires AllDigits(s)
    ensures DecodeStrict(s) == DecodeLenient(s) == Digits(s)
    ensures DecodeStrict(s) == None <==> |s| % 4 == 1
  {
    hide Strict, Lenient, Digits, WithoutSpaces, Value, Padding, AllDigits;
    PadIsEquals(|s|);
    NoSpaces(s, StrictPad(|s|));
    StrictOnDigits(s);
    LenientOnDigits(s, 0, 0);
    DigitsFail(s);
    DigitsAreAscii(s);
  }

  lemma DigitsAreAscii(s: string)
    requires AllDigits(s)
    ensures Ascii(s)
  {
    forall i | 0 <= i < |s|
      ensures s[i] < '\U{80}'
    {
      assert IsDigit(s[i]);
    }
  }

  /** The round trip, by either decoder. */
  lemma {:induction false} RoundTrip(b: seq<Byte>)
    ensures DecodeStrict(Encode(b)) == Some(b) && DecodeLenient(Encode(b)) == Some(b)
  {
    hide Encode, DecodeStrict, DecodeLenient, Digits;
    DigitsOfEncoded(b);
    DecodersAgree(Encode(b));
  }

  lemma {:induction false} DigitsFail(s: string)
    requires AllDigits(s)
    ensures Digits(s) == None <==> |s| % 4 == 1
  {
    hide *;
    if |s| < 4 {
      DigitsShort(s);
    } else {
      DigitsLong(s);
      DigitsFail(s[4..]);
      FourLess(|s|);
    }
  }

  lemma FourLess(n: nat)
    requires n >= 4
    ensures (n - 4) % 4 == n % 4
  {}

  lemma {:induction false} DigitsShort(s: string)
    requires AllDigits(s) && |s| < 4
    ensures Digits(s) == None <==> |s| == 1
  {
    hide Value, Byte1, Byte2, Byte3;
  }

  lemma {:induction false} DigitsLong(s: string)
    requires AllDigits(s) && |s| >= 4
    ensures AllDigits(s[4..]) && (Digits(s) == None <==> Digits(s[4..]) == None)
  {
    hide Value, Byte1, Byte2, Byte3;
  }

  // ---------------------------------------------------------------- both decoders on stray characters

  /** No padding characters and no spaces. */
  predicate Bare(s: string) {
    forall i :: 0 <= i < |s| ==> s[i] != '=' && !IsSpace(s[i])
  }

  /** The digits of a text, stray characters left out. */
  function DigitsOf(s: string): (d: string)
    ensures AllDigits(d) && |d| <= |s|
  {
    if s == "" then "" else (if IsDigit(s[0]) then [s[0]] else "") + DigitsOf(s[1..])
  }

  lemma {:induction false} AllAreDigits(s: string)
    ensures DigitsOf(s) == s <==> AllDigits(s)
    ensures |DigitsOf(s)| == |s| <==> AllDigits(s)
  {
    hide Value;
    if s != "" {
      AllAreDigits(s[1..]);
      assert s == [s[0]] + s[1..];
      assert AllDigits(s) <==> IsDigit(s[0]) && AllDigits(s[1..]);
    }
  }

  lemma {:induction false} StraySkipped(s: string, pad: string, pos: int, left: Sextet, pads: int)
    requires Bare(s)
    ensures Lenient(s + pad, pos, left, pads) == Lenient(DigitsOf(s) + pad, pos, left, pads)
    decreases |s|
  {
    hide Byte1, Byte2, Byte3, Value;
    if s == "" {
      assert s + pad == pad == DigitsOf(s) + pad;
    } else {
      var t, d := s + pad, DigitsOf(s[1..]);
      assert t[0] == s[0] && t[1..] == s[1..] + pad;
      if IsDigit(s[0]) {
        var u := DigitsOf(s) + pad;
        assert u[0] == s[0] && u[1..] == d + pad;
        StraySkipped(s[1..], pad, if pos == 0 then 1 else (pos + 1) % 4, Value(s[0]).value, 0);
      } else {
        assert "" + d == d;
        StraySkipped(s[1..], pad, pos, left, pads);
      }
    }
  }

  /** A character that is no digit and no padding is refused wherever it stands. */
  lemma {:induction false} StrayRefused(t: string, i: nat)
    requires i < |t| && !IsDigit(t[i]) && t[i] != '='
    ensures Strict(t) == None
    decreases |t|
  {
    hide Value, Byte1, Byte2, Byte3;
    if |t| >= 4 {
      if i < 4 {
        assert t[..4][i] == t[i];
        assert Quad(t[..4]) == None;
      } else {
        StrayRefused(t[4..], i - 4);
      }
    }
  }

  lemma {:induction false} BareHasNoSpaces(s: string, pad: string)
    requires Bare(s) && (forall i :: 0 <= i < |pad| ==> pad[i] == '=') && |pad| <= 2
    ensures WithoutSpaces(s + pad) == s + pad
  {
    if s == "" {
      assert s + pad == pad;
      NoSpacesInPadding(pad);
    } else {
      assert (s + pad)[1..] == s[1..] + pad;
      BareHasNoSpaces(s[1..], pad);
    }
  }

  /** The last group of d digits is whole, or n padding characters complete it. */
  predicate Completes(d: nat, n: nat) {
    d % 4 == 0 || (d % 4 == 2 && n >= 2) || (d % 4 == 3 && n >= 1)
  }

  lemma {:induction false} LenientCompletes(d: string, n: nat, left: Sextet, pads: int)
    requires AllDigits(d) && n <= 3
    ensures Lenient(d + Padding(n), 0, left, pads) != None <==> Completes(|d|, n)
    decreases |d|
  {
    hide Value, Byte1, Byte2, Byte3, Lenient, Padding;
    var t := d + Padding(n);
    if |d| >= 4 {
      FourDigits(t, left, pads);
      LenientCompletes(d[4..], n, Value(d[3]).value, 0);
      assert t[4..] == d[4..] + Padding(n);
      FourLess(|d|);
    } else if d == "" {
      assert t == Padding(n);
      PaddingAlone(n, left, pads);
    } else {
      assert IsDigit(d[0]);
      if |d| == 1 {
        LenientDigit(t, 0, left, pads);
        assert t[1..] == Padding(n);
        AfterOne(n, Value(d[0]).value);
      } else {
        assert IsDigit(d[1]);
        TwoDigits(t, left, pads);
        if |d| == 2 {
          assert t[2..] == Padding(n);
          AfterTwo(n, Value(d[1]).value);
        } else {
          assert IsDigit(d[2]) && t[2..][0] == d[2] && t[2..][1..] == Padding(n);
          LenientDigit(t[2..], 2, Value(d[1]).value, 0);
          AfterThree(n, Value(d[2]).value);
        }
      }
    }
  }

  lemma {:induction false} PaddingAlone(n: nat, left: Sextet, pads: int)
    ensures Lenient(Padding(n), 0, left, pads) == Some([])
  {
    if n > 0 {
      assert ("=" + Padding(n - 1))[1..] == Padding(n - 1);
      PaddingAlone(n - 1, left, pads);
    }
  }

  lemma {:induction false} AfterOne(n: nat, left: Sextet)
    ensures Lenient(Padding(n), 1, left, 0) == None
  {
    if n > 0 {
      assert ("=" + Padding(n - 1))[1..] == Padding(n - 1);
      AfterOne(n - 1, left);
    }
  }

  lemma {:induction false} AfterTwo(n: nat, left: Sextet)
    requires n <= 3
    ensures Lenient(Padding(n), 2, left, 0) == if n >= 2 then Some([]) else None
  {
    Pads();
    if n >= 1 {
      var rest := Padding(n)[1..];
      assert rest == Padding(n - 1);
      assert Lenient(rest, 2, left, 1) == if n >= 2 then Some([]) else None;
    }
  }

  lemma {:induction false} AfterThree(n: nat, left: Sextet)
    requires n <= 3
    ensures Lenient(Padding(n), 3, left, 0) == if n >= 1 then Some([]) else None
  {
    Pads();
  }

  /**
    On a text without padding and spaces the decoders differ exactly if it holds a stray character, all its characters
    are ASCII, and the padding added for its length happens to complete the digits that are left.
  */
  lemma {:induction false} DecodersDifferExactly(s: string)
    requires Bare(s)
    ensures DecodeLenient(s) != DecodeStrict(s) <==>
            !AllDigits(s) && Ascii(s) && Completes(|DigitsOf(s)|, (4 - |s| % 4) % 4)
  {
    hide Value, Lenient, Strict, WithoutSpaces, Padding, Digits, IsDigit;
    if AllDigits(s) {
      DecodersAgree(s);
    } else {
      var i :| 0 <= i < |s| && !IsDigit(s[i]);
      var n := (4 - |s| % 4) % 4;
      StraySkipped(s, Padding(n), 0, 0, 0);
      LenientCompletes(DigitsOf(s), n, 0, 0);
      PadIsEquals(|s|);
      BareHasNoSpaces(s, StrictPad(|s|));
      StrayRefused(s + StrictPad(|s|), i);
    }
  }

  /** For example: four digits and a stray character. */
  lemma DecodersDiffer()
    ensures DecodeLenient("AAAA!") != DecodeStrict("AAAA!")
  {
    hide DecodeLenient, DecodeStrict;
    var s := "AAAA!";
    assert !IsDigit(s[4]);
    assert s[1..] == "AAA!" && "AAA!"[1..] == "AA!" && "AA!"[1..] == "A!" && "A!"[1..] == "!" && "!"[1..] == "";
    assert DigitsOf("!") == "" && DigitsOf("A!") == "A" && DigitsOf("AA!") == "AA" && DigitsOf("AAA!") == "AAA";
    DecodersDifferExactly(s);
  }

  // ---------------------------------------------------------------- any text

  lemma {:induction false} SpacesSkipped(s: string, pos: int, left: Sextet, pads: int)
    ensures Lenient(s, pos, left, pads) == Lenient(WithoutSpaces(s), pos, left, pads)
    decreases |s|
  {
    hide Byte1, Byte2, Byte3;
    if s != "" {
      var rest := WithoutSpaces(s[1..]);
      if IsSpace(s[0]) {
        assert WithoutSpaces(s) == rest;
        SpacesSkipped(s[1..], pos, left, pads);
      } else {
        assert WithoutSpaces(s)[0] == s[0] && WithoutSpaces(s)[1..] == rest;
        if s[0] == '=' {
          SpacesSkipped(s[1..], pos, left, if pos >= 2 then pads + 1 else pads);
        } else if IsDigit(s[0]) {
          SpacesSkipped(s[1..], if pos == 0 then 1 else (pos + 1) % 4, Value(s[0]).value, 0);
        } else {
          SpacesSkipped(s[1..], pos, left, pads);
        }
      }
    }
  }

  lemma {:induction false} WithoutSpacesOfConcat(a: string, b: string)
    ensures WithoutSpaces(a + b) == WithoutSpaces(a) + WithoutSpaces(b)
    decreases |a|
  {
    if a == "" {
      assert a + b == b;
    } else {
      assert (a + b)[1..] == a[1..] + b;
      WithoutSpacesOfConcat(a[1..], b);
    }
  }

  lemma {:induction false} OnlySpacesGo(s: string, i: nat)
    requires i < |s| && !IsSpace(s[i])
    ensures s[i] in WithoutSpaces(s)
    decreases |s|
  {
    if i > 0 {
      OnlySpacesGo(s[1..], i - 1);
    }
  }

  /** What the strict decoder accepts consists of digits, padding and spaces. */
  lemma {:induction false} StrictCharacters(s: string)
    requires DecodeStrict(s).Some?
    ensures forall i :: 0 <= i < |s| ==> IsDigit(s[i]) || s[i] == '=' || IsSpace(s[i])
  {
    hide Strict, WithoutSpaces, IsDigit;
    var t := s + StrictPad(|s|);
    forall i | 0 <= i < |s|
      ensures IsDigit(s[i]) || s[i] == '=' || IsSpace(s[i])
    {
      if !IsDigit(s[i]) && s[i] != '=' && !IsSpace(s[i]) {
        assert t[i] == s[i];
        OnlySpacesGo(t, i);
        var j :| 0 <= j < |WithoutSpaces(t)| && WithoutSpaces(t)[j] == t[i];
        StrayRefused(WithoutSpaces(t), j);
      }
    }
  }

  /** What the strict decoder makes of digits and padding, the lenient one does too, with more padding behind. */
  lemma {:induction false} StrictThenLenient(t: string, n: nat, left: Sextet, pads: int)
    requires Strict(t).Some?
    ensures Lenient(t + Padding(n), 0, left, pads) == Strict(t)
    decreases |t|
  {
    hide Value, Byte1, Byte2, Byte3, Lenient, Padding;
    var u := t + Padding(n);
    if t == "" {
      assert u == Padding(n);
      PaddingAlone(n, left, pads);
    } else {
      var head := Quad(t[..4]).value;
      assert forall i :: 0 <= i < 4 ==> t[..4][i] == t[i] == u[i];
      if |head| == 3 {
        StrictThenLenient(t[4..], n, Value(t[3]).value, 0);
        assert u[4..] == t[4..] + Padding(n);
        FourDigits(u, left, pads);
      } else {
        assert t == t[..4];
        TwoDigits(u, left, pads);
        LastGroup(u, Value(t[1]).value);
        var b1 := Byte1(Value(t[0]).value, Value(t[1]).value);
        if t[2] == '=' {
          assert [b1] + [] == [b1];
        } else {
          var b2 := Byte2(Value(t[1]).value, Value(t[2]).value);
          assert [b1] + [b2] == [b1, b2];
        }
      }
    }
  }

  /** The rest of a padded group ends the text, whatever follows. */
  lemma {:induction false} LastGroup(u: string, left: Sextet)
    requires |u| >= 4 && u[3] == '=' && (u[2] == '=' || IsDigit(u[2]))
    ensures Lenient(u[2..], 2, left, 0) ==
            if u[2] == '=' then Some([]) else Some([Byte2(left, Value(u[2]).value)])
  {
    hide Value, Byte2;
    assert u[2..][0] == u[2] && u[2..][1..] == u[3..] && u[3..][0] == u[3];
    if u[2] == '=' {
      assert Lenient(u[3..], 2, left, 1) == Some([]);
    } else {
      LenientDigit(u[2..], 2, left, 0);
      assert Lenient(u[3..], 3, Value(u[2]).value, 0) == Some([]);
      var b2 := Byte2(left, Value(u[2]).value);
      assert [b2] + [] == [b2];
    }
  }

  /** For every text: what the strict decoder accepts, the lenient decoder reads alike. */
  lemma {:induction false} StrictIsLenient(s: string)
    requires DecodeStrict(s).Some?
    ensures DecodeLenient(s) == DecodeStrict(s)
  {
    hide Lenient, Strict, WithoutSpaces, Padding, Value;
    StrictCharacters(s);
    assert Ascii(s) by {
      forall i | 0 <= i < |s| ensures s[i] < '\U{80}' {
        DigitIsAscii(s[i]);
      }
    }
    var extra := if |s| % 4 == 1 then 3 else 0;
    PadsDiffer(|s|);
    assert s + LenientPad(|s|) == (s + StrictPad(|s|)) + Padding(extra);
    SpacesSkipped(s + LenientPad(|s|), 0, 0, 0);
    WithoutSpacesOfConcat(s + StrictPad(|s|), Padding(extra));
    PaddingKept(extra);
    StrictThenLenient(WithoutSpaces(s + StrictPad(|s|)), extra, 0, 0);
  }

  lemma DigitIsAscii(c: char)
    requires IsDigit(c) || c == '=' || IsSpace(c)
    ensures c < '\U{80}'
  {}

  lemma PadsDiffer(n: nat)
    ensures LenientPad(n) == StrictPad(n) + Padding(if n % 4 == 1 then 3 else 0)
  {
    Pads();
  }

  lemma {:induction false} PaddingKept(n: nat)
    ensures WithoutSpaces(Padding(n)) == Padding(n)
  {
    if n > 0 {
      assert ("=" + Padding(n - 1))[1..] == Padding(n - 1);
      PaddingKept(n - 1);
    }
  }

  /** Four stray characters in front are skipped by the lenient decoder and refused by the strict one. */
  lemma {:induction false} StrayInFront(s: string)
    requires AllDigits(s)
    ensures DecodeLenient("!!!!" + s) == DecodeLenient(s) && DecodeStrict("!!!!" + s) == None
  {
    hide Value, Lenient, Strict, WithoutSpaces, Padding;
    var t := "!!!!" + s;
    DigitsAreAscii(s);
    forall i | 0 <= i < |t| ensures t[i] != '=' && !IsSpace(t[i]) && t[i] < '\U{80}' {
      if i >= 4 {
        assert t[i] == s[i - 4];
        DigitFacts(s[i - 4]);
        DigitIsAscii(s[i - 4]);
      }
    }
    FourLess(|t|);
    StraySkipped(t, LenientPad(|s|), 0, 0, 0);
    OnlyDigitsLeft(s);
    PadIsEquals(|t|);
    BareHasNoSpaces(t, StrictPad(|t|));
    ExclamationIsStray();
    StrayRefused(t + StrictPad(|t|), 0);
  }

  lemma ExclamationIsStray()
    ensures !IsDigit('!')
  {}

  lemma {:induction false} OnlyDigitsLeft(s: string)
    requires AllDigits(s)
    ensures DigitsOf("!!!!" + s) == s
  {
    hide Value, IsDigit;
    ExclamationIsStray();
    AllAreDigits(s);
    DigitsOfConcat("!!!!", s);
    var t := "!!!!";
    assert t[1..][1..][1..][1..] == "" && DigitsOf(t[1..][1..][1..]) == "" && DigitsOf(t[1..][1..]) == "";
    assert DigitsOf(t) == "" && "" + s == s;
  }

  lemma {:induction false} DigitsOfConcat(a: string, b: string)
    ensures DigitsOf(a + b) == DigitsOf(a) + DigitsOf(b)
    decreases |a|
  {
    hide IsDigit;
    if a == "" {
      assert a + b == b;
    } else {
      assert (a + b)[0] == a[0] && (a + b)[1..] == a[1..] + b;
      DigitsOfConcat(a[1..], b);
      var first := if IsDigit(a[0]) then [a[0]] else "";
      assert first + (DigitsOf(a[1..]) + DigitsOf(b)) == (first + DigitsOf(a[1..])) + DigitsOf(b);
    }
  }

  lemma PadIsEquals(n: nat)
    ensures |StrictPad(n)| <= 2 && forall i :: 0 <= i < |StrictPad(n)| ==> StrictPad(n)[i] == '='
  {}
}
