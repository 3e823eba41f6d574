/** The bytes that are signed, the verdict on every kind of URI, and the values that the
    parameters of a query are read as (stellar_uri.go). */
module UriValues {
  import opened Wrappers
  import opened Texts
  import opened Encodings
  import opened EncodedTexts
  import opened StellarUri

  /** The signed payload byte by byte: thirty-five zeros, a four, the prefix of
      SEP-0007, and the URI. */
  lemma PayloadBytes(data: string, i: nat)
    ensures |PayloadFromString(data)| == 62 + |data|
    ensures i < 62 + |data| ==>
      PayloadFromString(data)[i] ==
        if i < 35 then 0 as char
        else if i == 35 then 4 as char
        else if i < 62 then "stellar.sep.7 - URI Scheme"[i - 36]
        else data[i - 62]
  {
  }

  // --------------------------------------------------------------- verdicts

  lemma PayloadBefore(before: string, last: string)
    requires '&' !in last
    ensures PayloadOf(before + "&" + last) == PayloadFromString(before)
  {
    LastIndexUnique(before, last, '&');
    assert before + "&" + last == before + ['&'] + last;
    assert (before + "&" + last)[..|before|] == before;
  }

  /** The verdict on any URI with a separator in it: unsigned without a signature, bad
      when the signature is no base64 or not one of what stands before the last
      separator, and signed otherwise. */
  lemma Verdict(before: string, last: string, verify: (string, seq<Byte>) -> bool)
    requires '&' !in last
    ensures var raw := before + "&" + last;
      var text := Value(raw, "signature");
      && (ValidateOrigin(raw, verify) == Unsigned <==> text == "")
      && (ValidateOrigin(raw, verify) == Signed <==>
            text != "" && Base64Decode(text).Some? && verify(PayloadFromString(before), Base64Decode(text).value))
      && (ValidateOrigin(raw, verify) == BadSignature <==>
            text != "" && (Base64Decode(text).None? || !verify(PayloadFromString(before), Base64Decode(text).value)))
  {
    PayloadBefore(before, last);
  }

  /** Without any separator it is the empty text that must have been signed. */
  lemma VerdictWithoutSeparator(raw: string, verify: (string, seq<Byte>) -> bool)
    requires '&' !in raw
    ensures ValidateOrigin(raw, verify) == Signed <==>
      var text := Value(raw, "signature");
      text != "" && Base64Decode(text).Some? && verify("", Base64Decode(text).value)
  {
  }

  /** What the checker says of a signed URI, for every URI and every signature. */
  lemma SignedUriVerdict(uri: string, signature: seq<Byte>, verify: (string, seq<Byte>) -> bool)
    ensures ValidateOrigin(SignedUri(uri, signature), verify) ==
      if EndsInQuery(uri) && NoSignatureYet(uri) then
        (if signature == [] then Unsigned
         else if verify(PayloadFromString(uri), signature) then Signed
         else BadSignature)
      else if Value(uri, "signature") == "" then Unsigned
      else if EarlierVerifies(uri, verify) then Signed
      else BadSignature
  {
    SignatureRead(uri, signature);
    SignatureHasNoSeparator(signature);
    PayloadBefore(uri, SignatureParameter(signature));
    Associates(uri, "&", SignatureParameter(signature));
    if EndsInQuery(uri) && NoSignatureYet(uri) {
      Base64RoundTrip(signature);
      NothingEncodesToNothing(signature);
    }
  }

  // ----------------------------------------------------------------- values

  predicate IsAsciiSpace(c: char) {
    c == ' ' || c == '\t' || c == '\n' || c == 11 as char || c == 12 as char || c == '\r'
  }

  predicate AllSpaces(s: string) {
    forall i :: 0 <= i < |s| ==> IsAsciiSpace(s[i])
  }

  predicate NoSpaceAround(s: string) {
    s != "" ==> !IsAsciiSpace(s[0]) && !IsAsciiSpace(s[|s| - 1])
  }

  lemma {:induction false} LeftTrimmed(s: string) returns (a: string)
    ensures s == a + TrimLeft(s) && AllSpaces(a)
    ensures TrimLeft(s) != "" ==> !IsAsciiSpace(TrimLeft(s)[0])
    decreases |s|
  {
    if s != "" && IsSpace(s[0]) {
      a := LeftTrimmed(s[1..]);
      a := [s[0]] + a;
      assert s == [s[0]] + s[1..];
    } else {
      a := "";
    }
  }

  lemma {:induction false} RightTrimmed(s: string) returns (b: string)
    ensures s == TrimRight(s) + b && AllSpaces(b)
    ensures TrimRight(s) != "" ==> !IsAsciiSpace(TrimRight(s)[|TrimRight(s)| - 1])
    decreases |s|
  {
    if s != "" && IsSpace(s[|s| - 1]) {
      b := RightTrimmed(s[..|s| - 1]);
      b := b + [s[|s| - 1]];
      assert s == s[..|s| - 1] + [s[|s| - 1]];
    } else {
      b := "";
    }
  }

  /** Trimming takes the spaces off both ends, and nothing else. */
  lemma TrimmedText(s: string) returns (a: string, b: string)
    ensures s == a + TrimRight(TrimLeft(s)) + b && AllSpaces(a) && AllSpaces(b)
    ensures NoSpaceAround(TrimRight(TrimLeft(s)))
  {
    a := LeftTrimmed(s);
    b := RightTrimmed(TrimLeft(s));
    Associates(a, TrimRight(TrimLeft(s)), b);
    if TrimRight(TrimLeft(s)) != "" {
      assert TrimRight(TrimLeft(s))[0] == TrimLeft(s)[0];
    }
  }

  lemma NoEqualsInEscape(p: string, k: nat, i: nat)
    requires k < |p| && p[k] == '=' && i < |p| && i != k
    ensures i < k ==> (IsEscape(p[..k], i) <==> IsEscape(p, i))
    ensures i > k ==> (IsEscape(p[k + 1..], i - k - 1) <==> IsEscape(p, i))
  {
    assert !IsHex('=');
  }

  predicate WellEscaped(s: string) {
    forall i :: 0 <= i < |s| && s[i] == '%' ==> IsEscape(s, i)
  }

  lemma EscapedByParts(p: string, k: nat)
    requires k < |p| && p[k] == '='
    ensures WellEscaped(p) <==> WellEscaped(p[..k]) && WellEscaped(p[k + 1..])
  {
    var left, right := p[..k], p[k + 1..];
    if WellEscaped(p) {
      forall i | 0 <= i < |left| && left[i] == '%' ensures IsEscape(left, i) {
        NoEqualsInEscape(p, k, i);
      }
      forall i | 0 <= i < |right| && right[i] == '%' ensures IsEscape(right, i) {
        assert p[k + 1 + i] == '%';
        NoEqualsInEscape(p, k, k + 1 + i);
      }
    } else if WellEscaped(left) && WellEscaped(right) {
      forall i | 0 <= i < |p| && p[i] == '%' ensures IsEscape(p, i) {
        NoEqualsInEscape(p, k, i);
        assert i < k ==> left[i] == '%';
        assert i > k ==> right[i - k - 1] == '%';
      }
    }
  }

  /** A parameter counts exactly when it is not empty, has no semicolon, and two
      hexadecimal digits follow every percent sign in it. */
  lemma ParameterCounts(p: string)
    ensures ReadParameter(p).Some? <==>
      p != "" && ';' !in p && forall i :: 0 <= i < |p| && p[i] == '%' ==> IsEscape(p, i)
  {
    var k := IndexOf(p, '=');
    if k < |p| {
      EscapedByParts(p, k);
      UnescapeAccepts(p[..k]);
      UnescapeAccepts(p[k + 1..]);
    } else {
      assert p[..k] == p;
      UnescapeAccepts(p);
      UnescapeAccepts("");
    }
  }

  /** What stands before the first equals sign is the key, and the rest the value. */
  lemma KeyAndValue(key: string, value: string)
    requires '=' !in key && ReadParameter(key + "=" + value).Some?
    ensures QueryUnescape(key).Some? && QueryUnescape(value).Some?
    ensures ReadParameter(key + "=" + value) == Some((QueryUnescape(key).value, QueryUnescape(value).value))
  {
    var p := key + "=" + value;
    IndexOfUnique(p, '=', |key|);
    assert p[..|key|] == key && p[|key| + 1..] == value;
  }

  /** A parameter as a URL writes it. */
  function Parameter(p: (string, string)): string
    requires IsByteText(p.0) && IsByteText(p.1)
  {
    QueryEscape(p.0) + "=" + QueryEscape(p.1)
  }

  predicate AreByteTexts(pairs: seq<(string, string)>) {
    forall i :: 0 <= i < |pairs| ==> IsByteText(pairs[i].0) && IsByteText(pairs[i].1)
  }

  /** The parameters, escaped, with a separator between each two. */
  function QueryOf(pairs: seq<(string, string)>): string
    requires AreByteTexts(pairs)
  {
    if pairs == [] then ""
    else if |pairs| == 1 then Parameter(pairs[0])
    else QueryOf(pairs[..|pairs| - 1]) + "&" + Parameter(pairs[|pairs| - 1])
  }

  function ParametersOf(pairs: seq<(string, string)>): (ps: seq<string>)
    requires AreByteTexts(pairs)
    ensures |ps| == |pairs| && forall i :: 0 <= i < |pairs| ==> ps[i] == Parameter(pairs[i])
  {
    if pairs == [] then [] else ParametersOf(pairs[..|pairs| - 1]) + [Parameter(pairs[|pairs| - 1])]
  }

  /** The value that the first of the pairs with this key has. */
  function FirstOf(pairs: seq<(string, string)>, key: string): string {
    if pairs == [] then "" else if pairs[0].0 == key then pairs[0].1 else FirstOf(pairs[1..], key)
  }

  lemma EscapedHasNoSeparator(s: string, c: char)
    requires IsByteText(s) && c in "&=#?;"
    ensures c !in QueryEscape(s)
  {
    EscapedIsPlain(s);
  }

  lemma ParameterHasNoSeparator(p: (string, string), c: char)
    requires IsByteText(p.0) && IsByteText(p.1) && c in "&#?;"
    ensures c !in Parameter(p)
  {
    EscapedHasNoSeparator(p.0, c);
    EscapedHasNoSeparator(p.1, c);
  }

  /** A written parameter is read as its key and value. */
  lemma ParameterReads(p: (string, string))
    requires IsByteText(p.0) && IsByteText(p.1)
    ensures ReadParameter(Parameter(p)) == Some(p)
  {
    var k, v, text := QueryEscape(p.0), QueryEscape(p.1), Parameter(p);
    EscapedHasNoSeparator(p.0, '=');
    ParameterHasNoSeparator(p, ';');
    IndexOfUnique(text, '=', |k|);
    assert text[..|k|] == k && text[|k| + 1..] == v;
    EscapeRoundTrip(p.0);
    EscapeRoundTrip(p.1);
  }

  lemma {:induction false} QuerySplits(pairs: seq<(string, string)>)
    requires AreByteTexts(pairs) && pairs != []
    ensures Split(QueryOf(pairs), '&') == ParametersOf(pairs)
  {
    var front, last := pairs[..|pairs| - 1], pairs[|pairs| - 1];
    ParameterHasNoSeparator(last, '&');
    if |pairs| == 1 {
      SplitWithout(Parameter(last), '&');
    } else {
      QuerySplits(front);
      SplitAtLast(QueryOf(front), Parameter(last), '&');
      assert QueryOf(pairs) == QueryOf(front) + ['&'] + Parameter(last);
    }
  }

  lemma {:induction false} FirstValueOfPairs(pairs: seq<(string, string)>, key: string)
    requires AreByteTexts(pairs)
    ensures FirstValue(ParametersOf(pairs), key) == FirstOf(pairs, key)
  {
    if pairs != [] {
      var ps := ParametersOf(pairs);
      ParameterReads(pairs[0]);
      FirstValueOfPairs(pairs[1..], key);
      assert ps[1..] == ParametersOf(pairs[1..]);
    }
  }

  lemma {:induction false} QueryHasNoFragment(pairs: seq<(string, string)>)
    requires AreByteTexts(pairs)
    ensures '#' !in QueryOf(pairs)
  {
    if pairs != [] {
      QueryHasNoFragment(pairs[..|pairs| - 1]);
      ParameterHasNoSeparator(pairs[|pairs| - 1], '#');
    }
  }

  lemma QueryBehindMark(base: string, query: string)
    requires '#' !in base && '?' !in base && '#' !in query
    ensures RawQuery(base + "?" + query) == query
  {
    var uri := base + "?" + query;
    NoFragment(uri);
    IndexOfUnique(uri, '?', |base|);
    assert uri[|base| + 1..] == query;
  }

  /** A query written from keys and values gives each key the first of its values, with
      the spaces around it taken off, and any other key nothing. */
  lemma ValueOfQuery(base: string, pairs: seq<(string, string)>, key: string)
    requires '#' !in base && '?' !in base && AreByteTexts(pairs)
    ensures Value(base + "?" + QueryOf(pairs), key) == TrimRight(TrimLeft(FirstOf(pairs, key)))
  {
    QueryHasNoFragment(pairs);
    QueryBehindMark(base, QueryOf(pairs));
    if pairs == [] {
      NoParameters(key);
    } else {
      QuerySplits(pairs);
      FirstValueOfPairs(pairs, key);
    }
  }
}
