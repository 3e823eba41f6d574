/** Signing and checking SEP-0007 URIs (stellar_uri.go). The signature covers a
    payload made from the URI; the checker must undo exactly what signing appended. */
module StellarUri {
  import opened Wrappers
  import opened Texts
  import opened Encodings

  /** Thirty-five zero bytes and a four, a fixed prefix, and the URI. */
  function PayloadFromString(data: string): string {
    seq(35, i => 0 as char) + [4 as char] + "stellar.sep.7 - URI Scheme" + data
  }

  /** Position of the last `c` in `s`, if there is one. */
  function LastIndex(s: string, c: char): (k: Option<nat>)
    ensures k.Some? ==> k.value < |s| && s[k.value] == c && forall i :: k.value < i < |s| ==> s[i] != c
    ensures k.None? ==> c !in s
  {
    if s == "" then None
    else if s[|s| - 1] == c then Some(|s| - 1)
    else LastIndex(s[..|s| - 1], c)
  }

  lemma Base64IsByteText(signature: seq<Byte>)
    ensures IsByteText(Base64Encode(signature))
  {
    Base64Alphabet(signature);
  }

  function SignatureParameter(signature: seq<Byte>): string {
    Base64IsByteText(signature);
    "signature=" + QueryEscape(Base64Encode(signature))
  }

  /** The URI with its signature attached. The signature itself comes from the key. */
  function SignedUri(uri: string, signature: seq<Byte>): string {
    uri + "&" + SignatureParameter(signature)
  }

  /** What the checker verifies: the text before the last `&`, whatever follows it. */
  function CheckedPayload(raw: string): Option<string> {
    match LastIndex(raw, '&')
    case None => None
    case Some(k) => Some(PayloadFromString(raw[..k]))
  }

  lemma {:induction false} LastIndexUnique(before: string, after: string, c: char)
    requires c !in after
    ensures LastIndex(before + [c] + after, c) == Some(|before|)
  {
    var s := before + [c] + after;
    if after != "" {
      var front := after[..|after| - 1];
      assert s[|s| - 1] == after[|after| - 1];
      assert s[..|s| - 1] == before + [c] + front;
      LastIndexUnique(before, front, c);
    } else {
      assert s == before + [c];
    }
  }

  lemma SignatureHasNoSeparator(signature: seq<Byte>)
    ensures '&' !in SignatureParameter(signature) && '#' !in SignatureParameter(signature)
    ensures ';' !in SignatureParameter(signature) && '?' !in SignatureParameter(signature)
  {
    Base64IsByteText(signature);
    EscapedIsPlain(Base64Encode(signature));
  }

  /** The checker recomputes the payload that was signed, for every URI. */
  lemma CheckedPayloadIsSignedPayload(uri: string, signature: seq<Byte>)
    ensures CheckedPayload(SignedUri(uri, signature)) == Some(PayloadFromString(uri))
  {
    SignatureHasNoSeparator(signature);
    LastIndexUnique(uri, SignatureParameter(signature), '&');
    assert SignedUri(uri, signature) == uri + ['&'] + SignatureParameter(signature);
    assert SignedUri(uri, signature)[..|uri|] == uri;
  }

  /** Two payloads are equal only for equal URIs. */
  lemma PayloadIsInjective(a: string, b: string)
    requires PayloadFromString(a) == PayloadFromString(b)
    ensures a == b
  {
    var n := |PayloadFromString("")|;
    assert PayloadFromString(a)[n..] == a;
    assert PayloadFromString(b)[n..] == b;
  }

  /** Appending a further parameter to a signed URI changes the payload checked. */
  lemma AppendedParameterIsNoticed(uri: string, signature: seq<Byte>, extra: string)
    ensures CheckedPayload(SignedUri(uri, signature) + "&" + extra) != Some(PayloadFromString(uri))
  {
    var signed := SignedUri(uri, signature);
    var raw := signed + "&" + extra;
    assert raw[|signed|] == '&';
    var k := LastIndex(raw, '&').value;
    assert k >= |signed| > |uri|;
    assert |PayloadFromString(raw[..k])| > |PayloadFromString(uri)|;
  }

  // ------------------------------------------ reading the signature back

  /** One parameter of a query: skipped when it is empty, holds a semicolon or is
      not properly escaped. */
  function ReadParameter(p: string): Option<(string, string)> {
    if p == "" || ';' in p then None
    else
      var k := IndexOf(p, '=');
      match (QueryUnescape(p[..k]), QueryUnescape(if k < |p| then p[k + 1..] else ""))
      case (Some(key), Some(value)) => Some((key, value))
      case _ => None
  }

  predicate IsParameter(p: string, key: string) {
    ReadParameter(p).Some? && ReadParameter(p).value.0 == key
  }

  /** The value of the first parameter called `key`. */
  function FirstValue(parameters: seq<string>, key: string): string {
    if parameters == [] then ""
    else if IsParameter(parameters[0], key) then ReadParameter(parameters[0]).value.1
    else FirstValue(parameters[1..], key)
  }

  function QueryPart(s: string): string {
    var k := IndexOf(s, '?');
    if k < |s| then s[k + 1..] else ""
  }

  /** The query of a URI: after the first `?`, and before any `#`. */
  function RawQuery(uri: string): string {
    QueryPart(uri[..IndexOf(uri, '#')])
  }

  predicate IsSpace(c: char) {
    c == ' ' || 9 as char <= c <= 13 as char
  }

  function TrimLeft(s: string): string {
    if s != "" && IsSpace(s[0]) then TrimLeft(s[1..]) else s
  }

  function TrimRight(s: string): string {
    if s != "" && IsSpace(s[|s| - 1]) then TrimRight(s[..|s| - 1]) else s
  }

  function Value(uri: string, key: string): string {
    TrimRight(TrimLeft(FirstValue(Split(RawQuery(uri), '&'), key)))
  }

  datatype Origin = Unsigned | BadSignature | Signed

  /** Without any `&` there is nothing to verify. */
  function PayloadOf(raw: string): string {
    match CheckedPayload(raw)
    case None => ""
    case Some(payload) => payload
  }

  /** The checker's decision once it has the key: `verify` is the key's own test. */
  function ValidateOrigin(raw: string, verify: (string, seq<Byte>) -> bool): Origin {
    var text := Value(raw, "signature");
    if text == "" then Unsigned
    else
      match Base64Decode(text)
      case None => BadSignature
      case Some(signature) => if verify(PayloadOf(raw), signature) then Signed else BadSignature
  }

  /** No parameter of the URI is already called `signature`. */
  predicate NoSignatureYet(uri: string) {
    forall i :: 0 <= i < |Split(RawQuery(uri), '&')| ==> !IsParameter(Split(RawQuery(uri), '&')[i], "signature")
  }

  /** A URI with a query and no fragment, which is where signing appends. */
  predicate EndsInQuery(uri: string) {
    '#' !in uri && '?' in uri
  }

  lemma {:induction false} FirstValueAppended(parameters: seq<string>, last: string, key: string)
    ensures FirstValue(parameters + [last], key) ==
      if exists i :: 0 <= i < |parameters| && IsParameter(parameters[i], key) then FirstValue(parameters, key)
      else if IsParameter(last, key) then ReadParameter(last).value.1 else ""
  {
    if parameters != [] {
      assert (parameters + [last])[1..] == parameters[1..] + [last];
      FirstValueAppended(parameters[1..], last, key);
      if exists i :: 0 <= i < |parameters| && IsParameter(parameters[i], key) {
        var i :| 0 <= i < |parameters| && IsParameter(parameters[i], key);
        if i > 0 {
          assert parameters[1..][i - 1] == parameters[i];
        }
      }
    } else {
      assert [] + [last] == [last];
      assert FirstValue([last][1..], key) == "";
    }
  }

  lemma IndexAppended(s: string, tail: string, c: char)
    requires c !in tail
    ensures IndexOf(s + tail, c) == if c in s then IndexOf(s, c) else |s| + |tail|
  {
    var k := if c in s then IndexOf(s, c) else |s| + |tail|;
    if c in s {
      assert (s + tail)[k] == s[k];
    }
    IndexOfUnique(s + tail, c, k);
  }

  lemma NoFragment(uri: string)
    requires '#' !in uri
    ensures RawQuery(uri) == QueryPart(uri)
    ensures '?' !in uri ==> RawQuery(uri) == ""
  {
    IndexOfUnique(uri, '#', |uri|);
    assert uri[..|uri|] == uri;
  }

  /** What is appended behind a fragment is part of the fragment. */
  lemma FragmentKept(raw: string, uri: string)
    requires uri <= raw && '#' in uri
    ensures RawQuery(raw) == RawQuery(uri)
  {
    var k := IndexOf(uri, '#');
    assert raw[k] == '#';
    IndexOfUnique(raw, '#', k);
    assert raw[..k] == uri[..k];
  }

  lemma TailAppended(s: string, tail: string, k: nat)
    requires k <= |s|
    ensures (s + tail)[k..] == s[k..] + tail
  {
  }

  lemma QueryGrows(uri: string, tail: string)
    requires '#' !in uri && '#' !in tail && '?' !in tail
    ensures RawQuery(uri + tail) == if '?' in uri then RawQuery(uri) + tail else ""
  {
    NoFragment(uri);
    NoFragment(uri + tail);
    IndexAppended(uri, tail, '?');
    if '?' in uri {
      TailAppended(uri, tail, IndexOf(uri, '?') + 1);
    }
  }

  /** A tail without separators lands in the query if there is one that ends the URI,
      and elsewhere it does not disturb the query. */
  lemma QueryAppended(uri: string, tail: string)
    requires '#' !in tail && '?' !in tail
    ensures RawQuery(uri + tail) == if EndsInQuery(uri) then RawQuery(uri) + tail else RawQuery(uri)
  {
    if '#' in uri {
      FragmentKept(uri + tail, uri);
    } else {
      QueryGrows(uri, tail);
      NoFragment(uri);
    }
  }

  lemma Associates(a: string, b: string, c: string)
    ensures a + (b + c) == a + b + c
  {
  }

  lemma QueryOfSigned(uri: string, signature: seq<Byte>)
    ensures RawQuery(SignedUri(uri, signature)) ==
      if EndsInQuery(uri) then RawQuery(uri) + "&" + SignatureParameter(signature) else RawQuery(uri)
  {
    SignatureHasNoSeparator(signature);
    QueryAppended(uri, "&" + SignatureParameter(signature));
    Associates(uri, "&", SignatureParameter(signature));
    Associates(RawQuery(uri), "&", SignatureParameter(signature));
  }

  lemma {:induction false} PlainTextUnescapes(s: string)
    requires '%' !in s && '+' !in s
    ensures QueryUnescape(s) == Some(s)
  {
    if s != "" {
      PlainTextUnescapes(s[1..]);
      assert s == [s[0]] + s[1..];
    }
  }

  lemma ReadsOwnParameter(signature: seq<Byte>)
    ensures ReadParameter(SignatureParameter(signature)) == Some(("signature", Base64Encode(signature)))
  {
    var text := Base64Encode(signature);
    Base64IsByteText(signature);
    var p := SignatureParameter(signature);
    SignatureHasNoSeparator(signature);
    IndexOfUnique(p, '=', 9);
    assert p[..9] == "signature" && p[10..] == QueryEscape(text);
    EscapeRoundTrip(text);
    PlainTextUnescapes("signature");
  }

  /** A signature that the URI carried before signing, and that is one for it. */
  predicate EarlierVerifies(uri: string, verify: (string, seq<Byte>) -> bool) {
    var text := Value(uri, "signature");
    text != "" && Base64Decode(text).Some? && verify(PayloadFromString(uri), Base64Decode(text).value)
  }

  lemma NothingToTrim(signature: seq<Byte>)
    ensures TrimRight(TrimLeft(Base64Encode(signature))) == Base64Encode(signature)
  {
    Base64Alphabet(signature);
  }

  /** The signature that the checker reads from a signed URI: the appended one, unless
      the URI does not end in a query or carried a signature before. */
  lemma SignatureRead(uri: string, signature: seq<Byte>)
    ensures Value(SignedUri(uri, signature), "signature") ==
      if EndsInQuery(uri) && NoSignatureYet(uri) then Base64Encode(signature) else Value(uri, "signature")
  {
    QueryOfSigned(uri, signature);
    if EndsInQuery(uri) {
      var p := SignatureParameter(signature);
      SignatureHasNoSeparator(signature);
      SplitAtLast(RawQuery(uri), p, '&');
      FirstValueAppended(Split(RawQuery(uri), '&'), p, "signature");
      ReadsOwnParameter(signature);
      NothingToTrim(signature);
    }
  }

  lemma {:induction false} NoFirstValue(parameters: seq<string>, key: string)
    requires forall i :: 0 <= i < |parameters| ==> !IsParameter(parameters[i], key)
    ensures FirstValue(parameters, key) == ""
  {
    if parameters != [] {
      NoFirstValue(parameters[1..], key);
    }
  }

  lemma NoneIsEmpty(uri: string)
    requires NoSignatureYet(uri)
    ensures Value(uri, "signature") == ""
  {
    NoFirstValue(Split(RawQuery(uri), '&'), "signature");
  }

  lemma NothingEncodesToNothing(signature: seq<Byte>)
    ensures Base64Encode(signature) == "" <==> signature == []
  {
    CharsAlphabet(Pack(signature));
  }

  /** For every URI: once signed it is accepted under the key's own test exactly when
      it ends in a query without a signature and the new one is not empty, or when an
      earlier signature is read instead and happens to verify. */
  lemma SignedUriIsAccepted(uri: string, signature: seq<Byte>, verify: (string, seq<Byte>) -> bool)
    requires verify(PayloadFromString(uri), signature)
    ensures ValidateOrigin(SignedUri(uri, signature), verify) == Signed <==>
      (EndsInQuery(uri) && NoSignatureYet(uri) && signature != []) || EarlierVerifies(uri, verify)
  {
    SignatureRead(uri, signature);
    CheckedPayloadIsSignedPayload(uri, signature);
    if EndsInQuery(uri) && NoSignatureYet(uri) {
      NoneIsEmpty(uri);
      Base64RoundTrip(signature);
      NothingEncodesToNothing(signature);
    }
  }

  // ------------------------------------------------------------- integrity

  /** The checker's payload is that of `uri` only for what was appended to it behind
      one last `&`. */
  lemma PayloadDeterminesUri(raw: string, uri: string) returns (tail: string)
    requires PayloadOf(raw) == PayloadFromString(uri)
    ensures raw == uri + "&" + tail && '&' !in tail
  {
    var k := LastIndex(raw, '&').value;
    PayloadIsInjective(raw[..k], uri);
    tail := raw[k + 1..];
  }

  lemma BeforeFragment(uri: string, tail: string)
    requires '#' !in uri
    ensures var raw := uri + "&" + tail;
      raw[..IndexOf(raw, '#')] == uri + "&" + tail[..IndexOf(tail, '#')]
  {
    IndexOfUnique(uri + "&" + tail, '#', |uri| + 1 + IndexOf(tail, '#'));
  }

  lemma RawQueryOf(raw: string, s: string)
    requires raw[..IndexOf(raw, '#')] == s
    ensures RawQuery(raw) == QueryPart(s)
  {
  }

  lemma QueryExtended(uri: string, kept: string)
    requires '?' in uri
    ensures QueryPart(uri + "&" + kept) == QueryPart(uri) + "&" + kept
  {
    var s, k := uri + "&" + kept, IndexOf(uri, '?');
    assert s[k] == '?';
    IndexOfUnique(s, '?', k);
    assert s[k + 1..] == uri[k + 1..] + "&" + kept;
  }

  lemma QueryOfTail(uri: string, kept: string)
    requires '?' !in uri
    ensures QueryPart(uri + "&" + kept) == QueryPart(kept)
  {
    var s, j := uri + "&" + kept, IndexOf(kept, '?');
    IndexOfUnique(s, '?', |uri| + 1 + j);
    if j < |kept| {
      assert s[|uri| + 1 + j + 1..] == kept[j + 1..];
    }
  }

  lemma QueryOfKept(uri: string, kept: string) returns (p: string)
    requires '&' !in kept
    ensures '&' !in p
    ensures QueryPart(uri + "&" + kept) == if '?' in uri then QueryPart(uri) + "&" + p else p
  {
    if '?' in uri {
      QueryExtended(uri, kept);
      p := kept;
    } else {
      QueryOfTail(uri, kept);
      p := QueryPart(kept);
    }
  }

  /** The query of what was appended: in a URI that ends in a query, one parameter
      more; in one without a query, what stands behind a `?` of the tail. */
  lemma QueryBehind(uri: string, tail: string) returns (p: string)
    requires '&' !in tail && '#' !in uri
    ensures '&' !in p
    ensures RawQuery(uri + "&" + tail) == if '?' in uri then RawQuery(uri) + "&" + p else p
  {
    var kept := tail[..IndexOf(tail, '#')];
    BeforeFragment(uri, tail);
    p := QueryOfKept(uri, kept);
    RawQueryOf(uri + "&" + tail, uri + "&" + kept);
    NoFragment(uri);
  }

  /** Adding a parameter called `signature` changes no other value. */
  lemma OtherValuesStay(parameters: seq<string>, p: string, key: string)
    requires IsParameter(p, "signature") && key != "signature"
    ensures FirstValue(parameters + [p], key) == FirstValue(parameters, key)
  {
    FirstValueAppended(parameters, p, key);
    if !(exists i :: 0 <= i < |parameters| && IsParameter(parameters[i], key)) {
      NoFirstValue(parameters, key);
    }
  }

  lemma SignatureIsAppended(parameters: seq<string>, p: string)
    requires forall i :: 0 <= i < |parameters| ==> !IsParameter(parameters[i], "signature")
    requires FirstValue(parameters + [p], "signature") != ""
    ensures IsParameter(p, "signature")
  {
    FirstValueAppended(parameters, p, "signature");
  }

  lemma NothingTrimsToNothing(s: string)
    requires TrimRight(TrimLeft(s)) != ""
    ensures s != ""
  {
  }

  lemma SignedMeans(raw: string, uri: string, verify: (string, seq<Byte>) -> bool)
    requires forall p, s :: verify(p, s) ==> p == PayloadFromString(uri)
    requires ValidateOrigin(raw, verify) == Signed
    ensures PayloadOf(raw) == PayloadFromString(uri)
    ensures FirstValue(Split(RawQuery(raw), '&'), "signature") != ""
  {
    NothingTrimsToNothing(FirstValue(Split(RawQuery(raw), '&'), "signature"));
  }

  lemma NoParameters(key: string)
    ensures FirstValue(Split("", '&'), key) == "" && FirstValue([], key) == ""
  {
    SplitWithout("", '&');
    assert !IsParameter("", key);
  }

  lemma ValuesBehind(raw: string, uri: string, p: string, key: string)
    requires '#' !in uri && '&' !in p && NoSignatureYet(uri) && key != "signature"
    requires RawQuery(raw) == if '?' in uri then RawQuery(uri) + "&" + p else p
    requires FirstValue(Split(RawQuery(raw), '&'), "signature") != ""
    ensures Value(raw, key) == Value(uri, key)
  {
    var before := if '?' in uri then Split(RawQuery(uri), '&') else [];
    if '?' in uri {
      SplitAtLast(RawQuery(uri), p, '&');
      assert RawQuery(uri) + "&" + p == RawQuery(uri) + ['&'] + p;
    } else {
      SplitWithout(p, '&');
      NoFragment(uri);
      NoParameters(key);
    }
    SignatureIsAppended(before, p);
    OtherValuesStay(before, p, key);
  }

  lemma ValuesKept(uri: string, tail: string, key: string)
    requires '&' !in tail && NoSignatureYet(uri) && key != "signature"
    requires FirstValue(Split(RawQuery(uri + "&" + tail), '&'), "signature") != ""
    ensures Value(uri + "&" + tail, key) == Value(uri, key)
  {
    if '#' in uri {
      FragmentKept(uri + "&" + tail, uri);
    } else {
      var p := QueryBehind(uri, tail);
      ValuesBehind(uri + "&" + tail, uri, p, key);
    }
  }

  /** What the checker lets through was signed. Whoever holds no signature but one of
      `uri` can append what he likes: if it is accepted, every value but that of the
      signature is the one in `uri`. */
  lemma AcceptedValuesWereSigned(raw: string, uri: string, key: string, verify: (string, seq<Byte>) -> bool)
    requires forall p, s :: verify(p, s) ==> p == PayloadFromString(uri)
    requires ValidateOrigin(raw, verify) == Signed && NoSignatureYet(uri) && key != "signature"
    ensures Value(raw, key) == Value(uri, key)
  {
    SignedMeans(raw, uri, verify);
    var tail := PayloadDeterminesUri(raw, uri);
    ValuesKept(uri, tail, key);
  }
}
