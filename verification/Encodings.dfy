/** The two text encodings a SEP-0007 signature passes through: standard base64
    (section 4 of RFC 4648) and URL query escaping. */
module Encodings {
  import opened Wrappers
  import opened Texts

  type Byte = x: nat | x < 256

  // ---------------------------------------------------------------- base64

  /** A group of six bits, or the padding that stands for a missing one. */
  datatype Sextet = Bits(v: nat) | Pad

  predicate ValidSextets(xs: seq<Sextet>) {
    forall i :: 0 <= i < |xs| ==> xs[i].Bits? ==> xs[i].v < 64
  }

  function SextetChar(x: Sextet): char
    requires x.Bits? ==> x.v < 64
  {
    match x
    case Pad => '='
    case Bits(v) =>
      if v < 26 then ('A' as int + v) as char
      else if v < 52 then ('a' as int + v - 26) as char
      else if v < 62 then ('0' as int + v - 52) as char
      else if v == 62 then '+'
      else '/'
  }

  function CharSextet(c: char): Option<Sextet> {
    if 'A' <= c <= 'Z' then Some(Bits(c as int - 'A' as int))
    else if 'a' <= c <= 'z' then Some(Bits(c as int - 'a' as int + 26))
    else if '0' <= c <= '9' then Some(Bits(c as int - '0' as int + 52))
    else if c == '+' then Some(Bits(62))
    else if c == '/' then Some(Bits(63))
    else if c == '=' then Some(Pad)
    else None
  }

  function Chars(xs: seq<Sextet>): string
    requires ValidSextets(xs)
  {
    if xs == [] then "" else [SextetChar(xs[0])] + Chars(xs[1..])
  }

  function Sextets(s: string): Option<seq<Sextet>> {
    if s == "" then Some([])
    else
      match (CharSextet(s[0]), Sextets(s[1..]))
      case (Some(x), Some(xs)) => Some([x] + xs)
      case _ => None
  }

  /** Three bytes become four groups; a shorter last group of bytes is padded. */
  function Pack(bs: seq<Byte>): (xs: seq<Sextet>)
    ensures ValidSextets(xs)
  {
    if |bs| == 0 then []
    else if |bs| == 1 then [Bits(bs[0] / 4), Bits(bs[0] % 4 * 16), Pad, Pad]
    else if |bs| == 2 then [Bits(bs[0] / 4), Bits(bs[0] % 4 * 16 + bs[1] / 16), Bits(bs[1] % 16 * 4), Pad]
    else
      [Bits(bs[0] / 4), Bits(bs[0] % 4 * 16 + bs[1] / 16), Bits(bs[1] % 16 * 4 + bs[2] / 64), Bits(bs[2] % 64)]
      + Pack(bs[3..])
  }

  /** The bytes that two neighbouring groups of six bits hold. */
  function FirstByte(p: nat, q: nat): nat {
    p * 4 + q / 16
  }

  function SecondByte(q: nat, r: nat): nat {
    q % 16 * 16 + r / 4
  }

  function ThirdByte(r: nat, t: nat): nat {
    r % 4 * 64 + t
  }

  lemma BytesFit(p: nat, q: nat, r: nat, t: nat)
    requires p < 64 && q < 64 && r < 64 && t < 64
    ensures FirstByte(p, q) < 256 && SecondByte(q, r) < 256 && ThirdByte(r, t) < 256
  {
  }

  /** Groups of four, padding only at the end of the last one. */
  function Unpack(xs: seq<Sextet>): Option<seq<Byte>>
    requires ValidSextets(xs)
  {
    if xs == [] then Some([])
    else if |xs| < 4 || xs[0].Pad? || xs[1].Pad? then None
    else
      var p, q := xs[0].v, xs[1].v;
      var r, t := if xs[2].Bits? then xs[2].v else 0, if xs[3].Bits? then xs[3].v else 0;
      BytesFit(p, q, r, t);
      if xs[2].Pad? then
        if xs[3].Pad? && |xs| == 4 then Some([FirstByte(p, q)]) else None
      else if xs[3].Pad? then
        if |xs| == 4 then Some([FirstByte(p, q), SecondByte(q, r)]) else None
      else
        match Unpack(xs[4..])
        case None => None
        case Some(rest) => Some([FirstByte(p, q), SecondByte(q, r), ThirdByte(r, t)] + rest)
  }

  function Base64Encode(bs: seq<Byte>): string {
    Chars(Pack(bs))
  }

  lemma {:induction false} SextetsAreValid(s: string)
    ensures Sextets(s).Some? ==> ValidSextets(Sextets(s).value)
  {
    if s != "" {
      SextetsAreValid(s[1..]);
    }
  }

  /** Line breaks are skipped wherever they stand. */
  function Base64Decode(s: string): Option<seq<Byte>> {
    var line := Without(Without(s, '\r'), '\n');
    match Sextets(line)
    case None => None
    case Some(xs) =>
      SextetsAreValid(line);
      Unpack(xs)
  }

  lemma SextetRoundTrip(x: Sextet)
    requires x.Bits? ==> x.v < 64
    ensures CharSextet(SextetChar(x)) == Some(x)
  {
  }

  lemma {:induction false} CharsRoundTrip(xs: seq<Sextet>)
    requires ValidSextets(xs)
    ensures Sextets(Chars(xs)) == Some(xs)
  {
    if xs != [] {
      SextetRoundTrip(xs[0]);
      CharsRoundTrip(xs[1..]);
      assert Chars(xs)[1..] == Chars(xs[1..]);
      assert xs == [xs[0]] + xs[1..];
    }
  }

  /** The bits of three bytes in four groups of six, taken apart and put together. */
  lemma GroupOfThree(a: Byte, b: Byte, c: Byte)
    ensures var v1, v2, v3 := a % 4 * 16 + b / 16, b % 16 * 4 + c / 64, c % 64;
      && a / 4 * 4 + v1 / 16 == a
      && v1 % 16 * 16 + v2 / 4 == b
      && v2 % 4 * 64 + v3 == c
  {
  }

  lemma OneRoundTrip(a: Byte)
    ensures Unpack(Pack([a])) == Some([a])
  {
    GroupOfThree(a, 0, 0);
  }

  lemma TwoRoundTrip(a: Byte, b: Byte)
    ensures Unpack(Pack([a, b])) == Some([a, b])
  {
    GroupOfThree(a, b, 0);
  }

  lemma GroupReads(a: Byte, b: Byte, c: Byte, p: nat, q: nat, r: nat, t: nat, rest: seq<Sextet>)
    requires p < 64 && q < 64 && r < 64 && t < 64
    requires FirstByte(p, q) == a && SecondByte(q, r) == b && ThirdByte(r, t) == c
    requires ValidSextets(rest) && Unpack(rest).Some?
    ensures Unpack([Bits(p), Bits(q), Bits(r), Bits(t)] + rest) == Some([a, b, c] + Unpack(rest).value)
  {
    assert ([Bits(p), Bits(q), Bits(r), Bits(t)] + rest)[4..] == rest;
  }

  lemma ThreeRoundTrip(a: Byte, b: Byte, c: Byte, rest: seq<Sextet>)
    requires ValidSextets(rest) && Unpack(rest).Some?
    ensures var group := [Bits(a / 4), Bits(a % 4 * 16 + b / 16), Bits(b % 16 * 4 + c / 64), Bits(c % 64)];
      Unpack(group + rest) == Some([a, b, c] + Unpack(rest).value)
  {
    GroupOfThree(a, b, c);
    GroupReads(a, b, c, a / 4, a % 4 * 16 + b / 16, b % 16 * 4 + c / 64, c % 64, rest);
  }

  lemma PackThree(a: Byte, b: Byte, c: Byte, rest: seq<Byte>)
    ensures Pack([a, b, c] + rest) ==
      [Bits(a / 4), Bits(a % 4 * 16 + b / 16), Bits(b % 16 * 4 + c / 64), Bits(c % 64)] + Pack(rest)
  {
    assert ([a, b, c] + rest)[3..] == rest;
  }

  lemma ThreeMoreRoundTrip(a: Byte, b: Byte, c: Byte, rest: seq<Byte>)
    requires Unpack(Pack(rest)) == Some(rest)
    ensures Unpack(Pack([a, b, c] + rest)) == Some([a, b, c] + rest)
  {
    PackThree(a, b, c, rest);
    ThreeRoundTrip(a, b, c, Pack(rest));
  }

  lemma {:induction false} PackRoundTrip(bs: seq<Byte>)
    ensures Unpack(Pack(bs)) == Some(bs)
  {
    if |bs| == 1 {
      OneRoundTrip(bs[0]);
      assert bs == [bs[0]];
    } else if |bs| == 2 {
      TwoRoundTrip(bs[0], bs[1]);
      assert bs == [bs[0], bs[1]];
    } else if |bs| > 2 {
      PackRoundTrip(bs[3..]);
      ThreeMoreRoundTrip(bs[0], bs[1], bs[2], bs[3..]);
      assert bs == [bs[0], bs[1], bs[2]] + bs[3..];
    }
  }

  predicate IsBase64Char(c: char) {
    'A' <= c <= 'Z' || 'a' <= c <= 'z' || '0' <= c <= '9' || c == '+' || c == '/' || c == '='
  }

  lemma {:induction false} CharsAlphabet(xs: seq<Sextet>)
    requires ValidSextets(xs)
    ensures |Chars(xs)| == |xs|
    ensures forall i :: 0 <= i < |xs| ==> IsBase64Char(Chars(xs)[i])
  {
    if xs != [] {
      CharsAlphabet(xs[1..]);
    }
  }

  lemma Base64Alphabet(bs: seq<Byte>)
    ensures forall i :: 0 <= i < |Base64Encode(bs)| ==> IsBase64Char(Base64Encode(bs)[i])
  {
    CharsAlphabet(Pack(bs));
  }

  /** Decoding an encoded text gives the bytes back, for bytes of any number. */
  lemma Base64RoundTrip(bs: seq<Byte>)
    ensures Base64Decode(Base64Encode(bs)) == Some(bs)
  {
    Base64Alphabet(bs);
    WithoutNone(Base64Encode(bs), '\r');
    WithoutNone(Base64Encode(bs), '\n');
    CharsRoundTrip(Pack(bs));
    PackRoundTrip(bs);
  }

  // --------------------------------------------------------- query escaping

  predicate IsByteText(s: string) {
    forall i :: 0 <= i < |s| ==> s[i] as int < 256
  }

  /** Letters, digits and `-_.~` are written as they are. */
  predicate Unreserved(c: char) {
    'A' <= c <= 'Z' || 'a' <= c <= 'z' || '0' <= c <= '9' || c == '-' || c == '_' || c == '.' || c == '~'
  }

  function HexDigit(v: nat): char
    requires v < 16
  {
    if v < 10 then ('0' as int + v) as char else ('A' as int + v - 10) as char
  }

  function HexValue(c: char): Option<nat> {
    if '0' <= c <= '9' then Some(c as int - '0' as int)
    else if 'a' <= c <= 'f' then Some(c as int - 'a' as int + 10)
    else if 'A' <= c <= 'F' then Some(c as int - 'A' as int + 10)
    else None
  }

  function EscapeByte(c: char): string
    requires c as int < 256
  {
    if Unreserved(c) then [c]
    else if c == ' ' then "+"
    else ['%', HexDigit(c as int / 16), HexDigit(c as int % 16)]
  }

  function QueryEscape(s: string): string
    requires IsByteText(s)
  {
    if s == "" then "" else EscapeByte(s[0]) + QueryEscape(s[1..])
  }

  function QueryUnescape(s: string): Option<string> {
    if s == "" then Some("")
    else if s[0] == '%' then
      if |s| < 3 || HexValue(s[1]).None? || HexValue(s[2]).None? then None
      else
        match QueryUnescape(s[3..])
        case None => None
        case Some(rest) => Some([(HexValue(s[1]).value * 16 + HexValue(s[2]).value) as char] + rest)
    else
      match QueryUnescape(s[1..])
      case None => None
      case Some(rest) => Some([if s[0] == '+' then ' ' else s[0]] + rest)
  }

  lemma HexRoundTrip(v: nat)
    requires v < 16
    ensures HexValue(HexDigit(v)) == Some(v)
  {
  }

  lemma UnescapeHex(h: char, l: char, c: char, rest: string)
    requires HexValue(h).Some? && HexValue(l).Some? && HexValue(h).value * 16 + HexValue(l).value == c as int
    requires QueryUnescape(rest).Some?
    ensures QueryUnescape(['%', h, l] + rest) == Some([c] + QueryUnescape(rest).value)
  {
    var s := ['%', h, l] + rest;
    assert s[0] == '%' && s[1] == h && s[2] == l;
    assert s[3..] == rest;
  }

  /** A byte that was escaped is read back, and reading goes on behind it. */
  lemma EscapedByteReads(c: char, rest: string)
    requires c as int < 256 && QueryUnescape(rest).Some?
    ensures QueryUnescape(EscapeByte(c) + rest) == Some([c] + QueryUnescape(rest).value)
  {
    if Unreserved(c) || c == ' ' {
      assert (EscapeByte(c) + rest)[1..] == rest;
    } else {
      HexRoundTrip(c as int / 16);
      HexRoundTrip(c as int % 16);
      UnescapeHex(HexDigit(c as int / 16), HexDigit(c as int % 16), c, rest);
    }
  }

  lemma {:induction false} EscapeRoundTrip(s: string)
    requires IsByteText(s)
    ensures QueryUnescape(QueryEscape(s)) == Some(s)
  {
    if s != "" {
      EscapeRoundTrip(s[1..]);
      EscapedByteReads(s[0], QueryEscape(s[1..]));
      assert s == [s[0]] + s[1..];
    }
  }

  /** An escaped text is free of every separator of a URL. */
  lemma {:induction false} EscapedIsPlain(s: string)
    requires IsByteText(s)
    ensures forall i :: 0 <= i < |QueryEscape(s)| ==> Unreserved(QueryEscape(s)[i]) || QueryEscape(s)[i] in "%+"
  {
    if s != "" {
      EscapedIsPlain(s[1..]);
    }
  }
}
