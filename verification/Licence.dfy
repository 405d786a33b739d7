/**
  Licence tokens: a payload and its signature, each in base64url, joined by a dot. The issuing side and the
  feed server resolve tokens in Python, the agent in C#; the two must give the same tier.
*/
module Licence {
  import opened Wrappers

  import opened Base64Url
  import opened Text

  type Bytes = seq<Byte>

  /** The fields that decide; `rest` is everything else. */
  datatype Payload = Payload(k: Option<string>, tier: Option<string>, exp: Option<int>, rest: string)

  /** The JSON codec and the signature scheme; `publicKeys` are the key ids whose public key is on disk. */
  datatype World = World(dump: Payload -> Bytes, load: Bytes -> Option<Payload>,
                         sign: (string, Bytes) -> Bytes, verify: (string, Bytes, Bytes) -> bool,
                         publicKeys: set<string>)

  ghost predicate Lawful(w: World) {
    && (forall p :: w.load(w.dump(p)) == Some(p))
    && (forall k, b :: w.verify(k, b, w.sign(k, b)))
  }

  const GRACE := 14 * 86400
  const TIERS := {"free", "pro", "msp"}
  const LONG_MIN := -0x8000_0000_0000_0000
  const LONG_MAX := 0x7FFF_FFFF_FFFF_FFFF

  // ---------------------------------------------------------------- tokens

  function TokenOf(payload: Bytes, signature: Bytes): string {
    Encode(payload) + "." + Encode(signature)
  }

  function Issue(w: World, k: string, tier: string, exp: int, rest: string): Option<string> {
    if tier !in TIERS then None
    else
      var bytes := w.dump(Payload(Some(k), Some(tier), Some(exp), rest));
      Some(TokenOf(bytes, w.sign(k, bytes)))
  }

  /** token.strip() and token.Trim(). */
  function StripToken(token: string): string {
    TrimOf(token, IsWhiteInPython)
  }

  function TrimToken(token: string): string {
    TrimOf(token, IsWhite)
  }

  /** The two parts around the first dot. */
  function SplitAtDot(s: string): Option<(string, string)> {
    if s == "" then None
    else if s[0] == '.' then Some(("", s[1..]))
    else match SplitAtDot(s[1..])
      case None => None
      case Some((a, b)) => Some(([s[0]] + a, b))
  }

  lemma {:induction false} SplitJoined(a: string, b: string)
    requires forall i :: 0 <= i < |a| ==> a[i] != '.'
    ensures SplitAtDot(a + "." + b) == Some((a, b))
  {
    var s := a + "." + b;
    if a == "" {
      assert s[1..] == b;
    } else {
      SplitJoined(a[1..], b);
      assert s[1..] == a[1..] + "." + b;
      assert [a[0]] + a[1..] == a;
    }
  }

  /** A token's parts come back as they went in: trimming changes nothing and the split is at the joining dot. */
  lemma {:induction false} TokenParts(payload: Bytes, signature: Bytes)
    ensures var t := TokenOf(payload, signature);
            && t != "" && StripToken(t) == t && TrimToken(t) == t
            && SplitAtDot(t) == Some((Encode(payload), Encode(signature)))
  {
    EncodedText(payload);
    EncodedText(signature);
    SplitJoined(Encode(payload), Encode(signature));
    var t := TokenOf(payload, signature);
    assert t[0] == if Encode(payload) == "" then '.' else Encode(payload)[0];
    assert t[|t| - 1] == if Encode(signature) == "" then '.' else Encode(signature)[|Encode(signature)| - 1];
    assert !IsWhiteInPython(t[0]) && !IsWhiteInPython(t[|t| - 1]);
    TrimNothing(t, IsWhite);
    TrimNothing(t, IsWhiteInPython);
  }

  /** What was signed comes back from an issued token, by either side's decoder. */
  lemma TokenRoundTrip(w: World, k: string, tier: string, exp: int, rest: string)
    requires tier in TIERS
    ensures var bytes := w.dump(Payload(Some(k), Some(tier), Some(exp), rest));
            var token := Issue(w, k, tier, exp, rest).value;
            var parts := SplitAtDot(StripToken(token));
            && StripToken(token) == TrimToken(token) && parts.Some?
            && DecodeLenient(parts.value.0) == DecodeStrict(parts.value.0) == Some(bytes)
            && DecodeLenient(parts.value.1) == DecodeStrict(parts.value.1) == Some(w.sign(k, bytes))
  {
    var bytes := w.dump(Payload(Some(k), Some(tier), Some(exp), rest));
    TokenParts(bytes, w.sign(k, bytes));
    RoundTrip(bytes);
    RoundTrip(w.sign(k, bytes));
  }

  // ---------------------------------------------------------------- resolving, in Python

  datatype Check =
    | Malformed | Undecodable | NoKeyId | UnknownKey | BadSignature | Raises
    | Expired(p: Payload) | Valid(p: Payload)

  function VerifyKey(w: World, token: string, now: int): Check {
    match SplitAtDot(StripToken(token))
    case None => Malformed
    case Some((first, second)) =>
      match DecodeLenient(first)
      case None => Undecodable
      case Some(bytes) =>
        match w.load(bytes)
        case None => Undecodable
        case Some(p) =>
          if p.k.None? || p.k.value == "" then NoKeyId
          else if p.k.value !in w.publicKeys then UnknownKey
          else match DecodeLenient(second)
            case None => Raises
            case Some(signature) =>
              if !w.verify(p.k.value, w.dump(p), signature) then BadSignature
              else if p.exp.GetOr(0) < now then Expired(p)
              else Valid(p)
  }

  datatype Resolved = Tier(tier: string, note: string) | Error

  function EffectiveTier(w: World, token: string, now: int): Resolved {
    if token == "" then Tier("free", "no key")
    else match VerifyKey(w, token, now)
      case Valid(p) => if p.tier.Some? then Tier(p.tier.value, "valid") else Error
      case Expired(p) =>
        if p.exp.GetOr(0) + GRACE >= now then Tier(p.tier.GetOr("free"), "grace")
            else Tier("free", "expired past grace")
      case Raises => Error
      case Malformed => Tier("free", "malformed token")
      case Undecodable => Tier("free", "undecodable payload")
      case NoKeyId => Tier("free", "payload missing key_id")
      case UnknownKey => Tier("free", "no public key")
      case BadSignature => Tier("free", "signature does not verify")
  }

  // ---------------------------------------------------------------- resolving, in C#

  /** `key` is the public key that the agent is configured with, if any. */
  function Resolve(w: World, token: string, key: Option<string>, now: int): Resolved {
    if TrimToken(token) == "" then Tier("free", "no key")
    else match SplitAtDot(TrimToken(token))
      case None => Tier("free", "malformed token")
      case Some((first, second)) =>
        var payload, signature := DecodeStrict(first), DecodeStrict(second);
        if payload.None? || signature.None? then Tier("free", "undecodable token")
        else match w.load(payload.value)
          case None => Tier("free", "undecodable payload")
          case Some(p) =>
            var exp := p.exp.GetOr(0);
            if exp < LONG_MIN || exp > LONG_MAX then Tier("free", "undecodable payload")
            else if key.Some? && !w.verify(key.value, payload.value, signature.value) then
              Tier("free", "signature does not verify")
            else if exp >= now then Tier(p.tier.GetOr("free"), "valid")
            else if exp + GRACE >= now then Tier(p.tier.GetOr("free"), "grace")
            else Tier("free", "expired past grace")
  }

  /** What is refused at once: issuing an unknown tier, and resolving nothing, or nothing but white space in C#. */
  lemma Refused(w: World, k: string, tier: string, exp: int, rest: string, token: string, key: Option<string>, now: int)
    ensures Issue(w, k, tier, exp, rest).None? <==> tier != "free" && tier != "pro" && tier != "msp"
    ensures EffectiveTier(w, "", now) == Tier("free", "no key")
    ensures TrimToken(token) == "" ==> Resolve(w, token, key, now) == Tier("free", "no key")
  {
    hide TrimToken;
  }

  // ---------------------------------------------------------------- issued tokens

  /** The Python side gives an issued token its tier up to and including the last second of grace. */
  lemma IssuedInPython(w: World, k: string, tier: string, exp: int, rest: string, now: int)
    requires Lawful(w) && tier in TIERS && k in w.publicKeys
    ensures EffectiveTier(w, Issue(w, k, tier, exp, rest).value, now) ==
            if k == "" then Tier("free", "payload missing key_id")
            else if now <= exp then Tier(tier, "valid")
            else if now <= exp + 14 * 86400 then Tier(tier, "grace")
            else Tier("free", "expired past grace")
  {
    hide SplitAtDot, StripToken, TrimToken, DecodeLenient, DecodeStrict, Encode;
    TokenRoundTrip(w, k, tier, exp, rest);
    var p := Payload(Some(k), Some(tier), Some(exp), rest);
    TokenParts(w.dump(p), w.sign(k, w.dump(p)));
  }

  /** The C# side does the same, except for an expiry that does not fit in 64 bits; it does not read the key id. */
  lemma IssuedInCSharp(w: World, k: string, tier: string, exp: int, rest: string, key: Option<string>, now: int)
    requires Lawful(w) && tier in TIERS && (key.Some? ==> key.value == k)
    ensures Resolve(w, Issue(w, k, tier, exp, rest).value, key, now) ==
            if exp < LONG_MIN || exp > LONG_MAX then Tier("free", "undecodable payload")
            else if now <= exp then Tier(tier, "valid")
            else if now <= exp + 14 * 86400 then Tier(tier, "grace")
            else Tier("free", "expired past grace")
  {
    hide SplitAtDot, StripToken, TrimToken, DecodeLenient, DecodeStrict, Encode;
    TokenRoundTrip(w, k, tier, exp, rest);
    var p := Payload(Some(k), Some(tier), Some(exp), rest);
    TokenParts(w.dump(p), w.sign(k, w.dump(p)));
  }

  /**
    The two sides give an issued token the same tier at a time (representable in 64 bits) exactly if the token is
    free, or past its grace, or its expiry fits in 64 bits while its key id is not empty - or neither.
  */
  lemma SidesAgreeExactly(w: World, k: string, tier: string, exp: int, rest: string, key: Option<string>, now: int)
    requires Lawful(w) && tier in TIERS && k in w.publicKeys && (key.Some? ==> key.value == k)
    requires LONG_MIN + 14 * 86400 <= now <= LONG_MAX
    ensures var token := Issue(w, k, tier, exp, rest).value;
            var py, cs := EffectiveTier(w, token, now), Resolve(w, token, key, now);
            && py.Tier? && cs.Tier?
            && (py.tier == cs.tier <==> tier == "free" || now > exp + 14 * 86400 || (k != "") == (exp <= LONG_MAX))
  {
    hide EffectiveTier, Resolve, Issue, Lawful;
    IssuedInPython(w, k, tier, exp, rest, now);
    IssuedInCSharp(w, k, tier, exp, rest, key, now);
  }

  // ---------------------------------------------------------------- any token

  /** The two parts of a token, decoded by the lenient and by the strict decoder. */
  function LenientParts(token: string): Option<(Bytes, Bytes)> {
    match SplitAtDot(StripToken(token))
    case None => None
    case Some((a, b)) =>
      if DecodeLenient(a).None? || DecodeLenient(b).None? then None
      else Some((DecodeLenient(a).value, DecodeLenient(b).value))
  }

  function StrictParts(token: string): Option<(Bytes, Bytes)> {
    match SplitAtDot(TrimToken(token))
    case None => None
    case Some((a, b)) =>
      if DecodeStrict(a).None? || DecodeStrict(b).None? then None
      else Some((DecodeStrict(a).value, DecodeStrict(b).value))
  }

  /** The payload names the tier and has not outlived its grace. */
  predicate Grants(p: Payload, tier: string, now: int) {
    p.tier == Some(tier) && now <= p.exp.GetOr(0) + 14 * 86400
  }

  function TierOf(r: Resolved): string {
    if r.Tier? then r.tier else "free"
  }

  /**
    For every token at all: the Python side gives a paid tier exactly if the token's own second part is a signature,
    by the key that its payload names, over the payload's contents, and those contents grant the tier.
  */
  lemma PaidIsSigned(w: World, token: string, tier: string, now: int)
    requires tier != "free"
    ensures TierOf(EffectiveTier(w, token, now)) == tier <==>
            var parts := LenientParts(token);
            && parts.Some?
            && w.load(parts.value.0).Some?
            && var p := w.load(parts.value.0).value;
            && p.k.Some? && p.k.value != "" && p.k.value in w.publicKeys
            && w.verify(p.k.value, w.dump(p), parts.value.1)
            && Grants(p, tier, now)
  {
    hide StripToken, DecodeLenient;
    if token == "" {
      TrimEmpty();
    }
  }

  /**
    The C# side: by the configured key, over the payload's bytes; without a configured key,
    no signature is asked for.
  */
  lemma PaidIsSignedInCSharp(w: World, token: string, tier: string, key: Option<string>, now: int)
    requires tier != "free"
    ensures TierOf(Resolve(w, token, key, now)) == tier <==>
            var parts := StrictParts(token);
            && parts.Some?
            && w.load(parts.value.0).Some?
            && var p := w.load(parts.value.0).value;
            && LONG_MIN <= p.exp.GetOr(0) <= LONG_MAX
            && (key.Some? ==> w.verify(key.value, parts.value.0, parts.value.1))
            && Grants(p, tier, now)
  {
    hide TrimToken, DecodeStrict;
    if TrimToken(token) == "" {
      TrimEmpty();
    }
  }

  lemma TrimEmpty()
    ensures StripToken("") == "" && SplitAtDot("") == None
  {}

  // ---------------------------------------------------------------- both sides on any token

  lemma {:induction false} SplitBack(s: string)
    requires SplitAtDot(s).Some?
    ensures var (a, b) := SplitAtDot(s).value; s == a + "." + b
  {
    if s[0] != '.' {
      SplitBack(s[1..]);
    }
  }

  /** A token whose parts decode strictly has no white space for either side to trim that the other keeps. */
  lemma StripIsTrim(token: string)
    requires StrictParts(token).Some?
    ensures StripToken(token) == TrimToken(token)
  {
    hide TrimOf, DecodeStrict, IsDigit, IsWhite;
    var t := TrimToken(token);
    var (a, b) := SplitAtDot(t).value;
    SplitBack(t);
    StrictCharacters(a);
    StrictCharacters(b);
    TrimmedEnds(token, IsWhite);
    assert t[0] == if a == "" then '.' else a[0];
    assert t[|t| - 1] == if b == "" then '.' else b[|b| - 1];
    NoSeparator(t[0]);
    NoSeparator(t[|t| - 1]);
    TrimLess(token, IsWhite, IsWhiteInPython);
    TrimNothing(t, IsWhiteInPython);
  }

  lemma NoSeparator(c: char)
    requires IsDigit(c) || c == '=' || IsSpace(c) || c == '.'
    ensures !('\U{1C}' <= c <= '\U{1F}')
  {}

  lemma {:induction false} TrimmedEnds(s: string, white: char -> bool)
    ensures var t := TrimOf(s, white); t != "" ==> !white(t[0]) && !white(t[|t| - 1])
    decreases |s|
  {
    if s == "" {
    } else if white(s[0]) {
      TrimmedEnds(s[1..], white);
    } else if white(s[|s| - 1]) {
      TrimmedEnds(s[..|s| - 1], white);
    }
  }

  /** What the C# side reads from a token, if it can, is what the Python side reads. */
  lemma PartsAgree(token: string)
    requires StrictParts(token).Some?
    ensures LenientParts(token) == StrictParts(token)
  {
    hide StripToken, TrimToken, DecodeStrict, DecodeLenient;
    StripIsTrim(token);
    var (a, b) := SplitAtDot(TrimToken(token)).value;
    StrictIsLenient(a);
    StrictIsLenient(b);
  }

  /**
    For every token at all and a configured key: if the C# side gives a paid tier, the Python side gives the same one
    exactly if the very signature that C# checked over the payload's bytes is also one, by the key that the payload
    names, over the payload's contents.
  */
  lemma PaidInPythonToo(w: World, token: string, tier: string, key: string, now: int)
    requires tier != "free" && TierOf(Resolve(w, token, Some(key), now)) == tier
    ensures var (bytes, signature) := StrictParts(token).value;
            var p := w.load(bytes).value;
            && w.verify(key, bytes, signature)
            && (TierOf(EffectiveTier(w, token, now)) == tier <==>
                  && p.k.Some? && p.k.value != "" && p.k.value in w.publicKeys
                  && w.verify(p.k.value, w.dump(p), signature))
  {
    hide EffectiveTier, Resolve, LenientParts, StrictParts;
    PaidIsSigned(w, token, tier, now);
    PaidIsSignedInCSharp(w, token, tier, Some(key), now);
    PartsAgree(token);
  }

  /** The payload's bytes are the canonical text of its contents, and name the configured key. */
  predicate Canonical(w: World, token: string, key: string) {
    var parts := LenientParts(token);
    parts.Some? && w.load(parts.value.0).Some? ==>
      var p := w.load(parts.value.0).value;
      w.dump(p) == parts.value.0 && p.k == Some(key)
  }

  /**
    On such tokens the C# side gives a paid tier exactly if the Python side does, the parts decode strictly, and the
    expiry fits in 64 bits.
  */
  lemma CanonicalTokensAgree(w: World, token: string, tier: string, key: string, now: int)
    requires tier != "free" && key != "" && key in w.publicKeys && Canonical(w, token, key)
    ensures TierOf(Resolve(w, token, Some(key), now)) == tier <==>
            && TierOf(EffectiveTier(w, token, now)) == tier
            && StrictParts(token).Some?
            && var p := w.load(StrictParts(token).value.0);
            && p.Some? && LONG_MIN <= p.value.exp.GetOr(0) <= LONG_MAX
  {
    hide EffectiveTier, Resolve, LenientParts, StrictParts;
    PaidIsSigned(w, token, tier, now);
    PaidIsSignedInCSharp(w, token, tier, Some(key), now);
    if StrictParts(token).Some? {
      PartsAgree(token);
    }
  }

  /** With stray characters in front, every issued token keeps its tier in Python and has none in C#. */
  lemma StrayTokens(w: World, k: string, tier: string, exp: int, rest: string, key: Option<string>, now: int)
    requires tier in TIERS
    ensures var token := Issue(w, k, tier, exp, rest).value;
            && EffectiveTier(w, "!!!!" + token, now) == EffectiveTier(w, token, now)
            && Resolve(w, "!!!!" + token, key, now) == Tier("free", "undecodable token")
  {
    var bytes := w.dump(Payload(Some(k), Some(tier), Some(exp), rest));
    var first, second := Encode(bytes), Encode(w.sign(k, bytes));
    var token := TokenOf(bytes, w.sign(k, bytes));
    hide SplitAtDot, TrimOf, DecodeLenient, DecodeStrict, Encode, IsWhite;
    TokenParts(bytes, w.sign(k, bytes));
    DigitsOfEncoded(bytes);
    StrayInFront(first);
    assert "!!!!" + token == ("!!!!" + first) + "." + second;
    StraySplit(first, second);
    EncodedText(w.sign(k, bytes));
    StrayEnds("!!!!" + token, second);
  }

  lemma {:induction false} StraySplit(first: string, second: string)
    requires AllDigits(first)
    ensures SplitAtDot(("!!!!" + first) + "." + second) == Some(("!!!!" + first, second))
  {
    hide IsDigit;
    var a := "!!!!" + first;
    forall i | 0 <= i < |a| ensures a[i] != '.' {
      if i >= 4 {
        assert a[i] == first[i - 4];
        NoDot(first[i - 4]);
      }
    }
    SplitJoined(a, second);
  }

  lemma NoDot(c: char)
    requires IsDigit(c)
    ensures c != '.'
  {}

  lemma StrayEnds(t: string, second: string)
    requires |t| > |second| && t[0] == '!' && t[|t| - |second| - 1..] == "." + second && AllSafe(second)
    ensures StripToken(t) == t && TrimToken(t) == t
  {
    var c := t[|t| - 1];
    assert c == t[|t| - |second| - 1..][|second|];
    assert c == '.' || UrlSafe(c);
    TrimNothing(t, IsWhite);
    TrimNothing(t, IsWhiteInPython);
  }
}
