/** The two encodings by position: base64 as section 4 of RFC 4648 describes it, and
    URL query escaping byte by byte. */
module EncodedTexts {
  import opened Wrappers
  import opened Texts
  import opened Encodings

  // ---------------------------------------------------------------- base64

  /** A byte, or zero behind the last one. */
  function ByteAt(bs: seq<Byte>, k: nat): nat {
    if k < |bs| then bs[k] else 0
  }

  /** Three bytes from position `3 * g` as one number of 24 bits. */
  function Group(bs: seq<Byte>, g: nat): nat {
    ByteAt(bs, 3 * g) * 65536 + ByteAt(bs, 3 * g + 1) * 256 + ByteAt(bs, 3 * g + 2)
  }

  /** The six bits at place `k` of 24, counted from the left. */
  function SixBits(n: nat, k: nat): (v: nat)
    requires k < 4
    ensures v < 64
  {
    (if k == 0 then n / 262144 else if k == 1 then n / 4096 else if k == 2 then n / 64 else n) % 64
  }

  lemma Over262144(n: nat, q: nat, r: nat)
    requires n == q * 262144 + r && r < 262144
    ensures n / 262144 == q
  {
  }

  lemma Over4096(n: nat, q: nat, r: nat)
    requires n == q * 4096 + r && r < 4096
    ensures n / 4096 == q
  {
  }

  lemma Over64(n: nat, q: nat, r: nat)
    requires n == q * 64 + r && r < 64
    ensures n / 64 == q && n % 64 == r
  {
  }

  lemma FirstSix(a: nat, b: nat, c: nat)
    requires a < 256 && b < 256 && c < 256
    ensures SixBits(a * 65536 + b * 256 + c, 0) == a / 4
    ensures SixBits(a * 65536 + b * 256 + c, 1) == a % 4 * 16 + b / 16
  {
    var n := a * 65536 + b * 256 + c;
    Over262144(n, a / 4, a % 4 * 65536 + b * 256 + c);
    Over4096(n, a * 16 + b / 16, b % 16 * 256 + c);
    Over64(a * 16 + b / 16, a / 4, a % 4 * 16 + b / 16);
  }

  lemma LastSix(a: nat, b: nat, c: nat)
    requires a < 256 && b < 256 && c < 256
    ensures SixBits(a * 65536 + b * 256 + c, 2) == b % 16 * 4 + c / 64
    ensures SixBits(a * 65536 + b * 256 + c, 3) == c % 64
  {
    var n := a * 65536 + b * 256 + c;
    Over64(n, a * 1024 + b * 4 + c / 64, c % 64);
    Over64(a * 1024 + b * 4 + c / 64, a * 16 + b / 16, b % 16 * 4 + c / 64);
  }

  lemma GroupShifts(bs: seq<Byte>, g: nat)
    requires |bs| >= 3
    ensures Group(bs, g + 1) == Group(bs[3..], g)
  {
  }

  /** The group of six bits at place `i`, or padding behind the last bit. */
  function SextetAt(bs: seq<Byte>, i: nat): Sextet {
    if 6 * i < 8 * |bs| then Bits(SixBits(Group(bs, i / 4), i % 4)) else Pad
  }

  lemma SextetsOfFirst(bs: seq<Byte>)
    requires bs != []
    ensures SextetAt(bs, 0) == Bits(bs[0] / 4)
    ensures SextetAt(bs, 1) == Bits(bs[0] % 4 * 16 + ByteAt(bs, 1) / 16)
    ensures SextetAt(bs, 2) == if |bs| > 1 then Bits(bs[1] % 16 * 4 + ByteAt(bs, 2) / 64) else Pad
    ensures SextetAt(bs, 3) == if |bs| > 2 then Bits(bs[2] % 64) else Pad
  {
    FirstSix(bs[0], ByteAt(bs, 1), ByteAt(bs, 2));
    LastSix(bs[0], ByteAt(bs, 1), ByteAt(bs, 2));
  }

  lemma PackedFirst(bs: seq<Byte>, i: nat)
    requires bs != [] && i < 4
    ensures |Pack(bs)| >= 4 && Pack(bs)[i] == SextetAt(bs, i)
  {
    SextetsOfFirst(bs);
  }

  lemma LaterSextet(bs: seq<Byte>, i: nat)
    requires |bs| >= 3 && i >= 4
    ensures SextetAt(bs, i) == SextetAt(bs[3..], i - 4)
  {
    GroupShifts(bs, i / 4 - 1);
  }

  lemma {:induction false} PackedAt(bs: seq<Byte>, i: nat)
    ensures |Pack(bs)| == (|bs| + 2) / 3 * 4
    ensures i < |Pack(bs)| ==> Pack(bs)[i] == SextetAt(bs, i)
  {
    if |bs| > 3 || (|bs| == 3 && i >= 4) {
      PackedAt(bs[3..], if i >= 4 then i - 4 else 0);
    }
    if bs != [] && i < 4 {
      PackedFirst(bs, i);
    } else if |bs| >= 3 {
      LaterSextet(bs, i);
    }
  }

  lemma {:induction false} CharsAt(xs: seq<Sextet>, i: nat)
    requires ValidSextets(xs) && i < |xs|
    ensures |Chars(xs)| == |xs| && Chars(xs)[i] == SextetChar(xs[i])
  {
    CharsAlphabet(xs);
    if i > 0 {
      CharsAt(xs[1..], i - 1);
    }
  }

  lemma UpperCase(v: nat)
    requires v < 26
    ensures "ABCDEFGHIJKLMNOPQRSTUVWXYZ"[v] == ('A' as int + v) as char
  {
  }

  lemma LowerCase(v: nat)
    requires v < 26
    ensures "abcdefghijklmnopqrstuvwxyz"[v] == ('a' as int + v) as char
  {
  }

  lemma Digit(v: nat)
    requires v < 10
    ensures "0123456789"[v] == ('0' as int + v) as char
  {
  }

  lemma StandardLetter(v: nat)
    requires v < 64
    ensures SextetChar(Bits(v)) == "ABCDEFGHIJKLMNOPQRSTUVWXYZabcdefghijklmnopqrstuvwxyz0123456789+/"[v]
  {
    assert "ABCDEFGHIJKLMNOPQRSTUVWXYZabcdefghijklmnopqrstuvwxyz0123456789+/" ==
      "ABCDEFGHIJKLMNOPQRSTUVWXYZ" + ("abcdefghijklmnopqrstuvwxyz" + ("0123456789" + "+/"));
    if v < 26 {
      UpperCase(v);
    } else if v < 52 {
      LowerCase(v - 26);
    } else if v < 62 {
      Digit(v - 52);
    }
  }

  /** Four characters for every three bytes, begun ones included: the letters of the
      standard alphabet for six bits each, read from the left, and '=' behind them. */
  lemma Base64IsStandard(bs: seq<Byte>, i: nat)
    ensures |Base64Encode(bs)| == (|bs| + 2) / 3 * 4
    ensures i < |Base64Encode(bs)| ==>
      Base64Encode(bs)[i] ==
        if 6 * i < 8 * |bs|
        then "ABCDEFGHIJKLMNOPQRSTUVWXYZabcdefghijklmnopqrstuvwxyz0123456789+/"[SixBits(Group(bs, i / 4), i % 4)]
        else '='
  {
    PackedAt(bs, i);
    CharsAlphabet(Pack(bs));
    if i < |Pack(bs)| {
      CharsAt(Pack(bs), i);
      StandardLetter(SixBits(Group(bs, i / 4), i % 4));
    }
  }

  predicate IsLetterOfBase64(c: char) {
    'A' <= c <= 'Z' || 'a' <= c <= 'z' || '0' <= c <= '9' || c == '+' || c == '/'
  }

  /** Groups of four letters; in the last group the last letter, or the last two, may be
      padding. */
  predicate IsBase64(line: string) {
    && |line| % 4 == 0
    && (forall i :: 0 <= i < |line| - 2 ==> IsLetterOfBase64(line[i]))
    && (line != "" ==>
          || (IsLetterOfBase64(line[|line| - 2]) && (IsLetterOfBase64(line[|line| - 1]) || line[|line| - 1] == '='))
          || (line[|line| - 2] == '=' && line[|line| - 1] == '='))
  }

  lemma {:induction false} SextetsExactly(s: string)
    ensures Sextets(s).Some? <==> forall i :: 0 <= i < |s| ==> IsBase64Char(s[i])
    ensures Sextets(s).Some? ==>
      |Sextets(s).value| == |s| && forall i :: 0 <= i < |s| ==> CharSextet(s[i]) == Some(Sextets(s).value[i])
  {
    if s != "" {
      SextetsExactly(s[1..]);
      assert forall i :: 0 <= i < |s[1..]| ==> s[1..][i] == s[i + 1];
      if Sextets(s[1..]).None? {
        var i :| 0 <= i < |s[1..]| && !IsBase64Char(s[1..][i]);
        assert !IsBase64Char(s[i + 1]);
      }
    }
  }

  /** The same of the groups of six bits. */
  predicate ArePadded(xs: seq<Sextet>) {
    && |xs| % 4 == 0
    && (forall i :: 0 <= i < |xs| - 2 ==> xs[i].Bits?)
    && (xs != [] ==> xs[|xs| - 2].Pad? ==> xs[|xs| - 1].Pad?)
  }

  lemma PaddedRest(xs: seq<Sextet>)
    requires |xs| > 4
    ensures ArePadded(xs) <==> xs[0].Bits? && xs[1].Bits? && xs[2].Bits? && xs[3].Bits? && ArePadded(xs[4..])
  {
    var rest := xs[4..];
    assert forall i :: 0 <= i < |rest| ==> rest[i] == xs[i + 4];
    if ArePadded(rest) && xs[0].Bits? && xs[1].Bits? && xs[2].Bits? && xs[3].Bits? {
      forall i | 0 <= i < |xs| - 2 ensures xs[i].Bits? {
        if i >= 4 {
          assert rest[i - 4].Bits?;
        }
      }
    }
  }

  lemma UnpackLonger(xs: seq<Sextet>)
    requires ValidSextets(xs) && |xs| > 4
    ensures Unpack(xs).Some? <==> xs[0].Bits? && xs[1].Bits? && xs[2].Bits? && xs[3].Bits? && Unpack(xs[4..]).Some?
  {
  }

  lemma {:induction false} UnpackAccepts(xs: seq<Sextet>)
    requires ValidSextets(xs)
    ensures Unpack(xs).Some? <==> ArePadded(xs)
    decreases |xs|
  {
    if |xs| > 4 {
      UnpackAccepts(xs[4..]);
      UnpackLonger(xs);
      PaddedRest(xs);
    } else if |xs| == 4 {
      assert Unpack(xs[4..]) == Some([]);
    }
  }

  lemma PaddingByLetters(line: string, xs: seq<Sextet>)
    requires |line| == |xs| && forall i :: 0 <= i < |line| ==> IsBase64Char(line[i]) && CharSextet(line[i]) == Some(xs[i])
    ensures ArePadded(xs) <==> IsBase64(line)
  {
    forall i | 0 <= i < |line| ensures xs[i].Bits? <==> IsLetterOfBase64(line[i]) {
    }
    if line != "" && IsBase64(line) {
      assert xs[|xs| - 2].Pad? <==> line[|line| - 2] == '=';
    }
  }

  lemma NotAllLetters(line: string)
    requires !(forall i :: 0 <= i < |line| ==> IsBase64Char(line[i]))
    ensures !IsBase64(line)
  {
    var i :| 0 <= i < |line| && !IsBase64Char(line[i]);
  }

  /** A text is decoded exactly when it is base64 once its line breaks are taken out. */
  lemma Base64Accepts(s: string)
    ensures Base64Decode(s).Some? <==> IsBase64(Without(Without(s, '\r'), '\n'))
  {
    var line := Without(Without(s, '\r'), '\n');
    SextetsExactly(line);
    if Sextets(line).Some? {
      SextetsAreValid(line);
      UnpackAccepts(Sextets(line).value);
      PaddingByLetters(line, Sextets(line).value);
    } else {
      NotAllLetters(line);
    }
  }

  // --------------------------------------------------------- query escaping

  lemma ThreePieces(x: string, y: string, z: string)
    ensures x + (y + z) == x + y + z
  {
  }

  lemma {:induction false} EscapeConcat(a: string, b: string)
    requires IsByteText(a) && IsByteText(b)
    ensures IsByteText(a + b) && QueryEscape(a + b) == QueryEscape(a) + QueryEscape(b)
  {
    if a == "" {
      assert a + b == b;
    } else {
      assert (a + b)[1..] == a[1..] + b;
      EscapeConcat(a[1..], b);
      ThreePieces(EscapeByte(a[0]), QueryEscape(a[1..]), QueryEscape(b));
    }
  }

  /** Letters, digits and four signs stay, a space becomes a plus, and every other byte
      a percent sign with two upper-case hexadecimal digits. */
  lemma EscapeOfByte(c: char)
    requires c as int < 256
    ensures IsByteText([c])
    ensures QueryEscape([c]) ==
      if 'a' <= c <= 'z' || 'A' <= c <= 'Z' || '0' <= c <= '9' || c in "-_.~" then [c]
      else if c == ' ' then "+"
      else ['%', "0123456789ABCDEF"[c as int / 16], "0123456789ABCDEF"[c as int % 16]]
  {
    assert QueryEscape([c]) == EscapeByte(c) + "";
  }

  predicate IsHex(c: char) {
    '0' <= c <= '9' || 'a' <= c <= 'f' || 'A' <= c <= 'F'
  }

  /** Two hexadecimal digits follow. */
  predicate IsEscape(s: string, i: nat)
    requires i < |s|
  {
    i + 2 < |s| && IsHex(s[i + 1]) && IsHex(s[i + 2])
  }

  lemma EscapesBehind(s: string, k: nat)
    requires k <= |s| && forall i :: 0 <= i < k && s[i] == '%' ==> IsEscape(s, i)
    ensures (forall i :: 0 <= i < |s| && s[i] == '%' ==> IsEscape(s, i)) <==>
      forall i :: 0 <= i < |s[k..]| && s[k..][i] == '%' ==> IsEscape(s[k..], i)
  {
    var t := s[k..];
    assert forall i :: 0 <= i < |t| ==> t[i] == s[k + i] && (IsEscape(t, i) <==> IsEscape(s, k + i));
    if forall i :: 0 <= i < |t| && t[i] == '%' ==> IsEscape(t, i) {
      forall i | 0 <= i < |s| && s[i] == '%' ensures IsEscape(s, i) {
        if i >= k {
          assert t[i - k] == '%';
        }
      }
    }
  }

  /** Escaped text can be read exactly when two hexadecimal digits follow every percent
      sign. */
  lemma {:induction false} UnescapeAccepts(s: string)
    ensures QueryUnescape(s).Some? <==> forall i :: 0 <= i < |s| && s[i] == '%' ==> IsEscape(s, i)
    decreases |s|
  {
    if s != "" {
      if s[0] != '%' {
        UnescapeAccepts(s[1..]);
        EscapesBehind(s, 1);
      } else if IsEscape(s, 0) {
        UnescapeAccepts(s[3..]);
        EscapesBehind(s, 3);
      }
    }
  }

  lemma HeadRead(a: string, b: string, k: nat)
    requires a != "" && QueryUnescape(a).Some? && k == (if a[0] == '%' then 3 else 1)
    ensures k <= |a| && QueryUnescape(a[k..]).Some?
    ensures QueryUnescape(a[k..] + b).None? ==> QueryUnescape(a + b).None?
    ensures forall rest :: QueryUnescape(a[k..] + b) == Some(QueryUnescape(a[k..]).value + rest) ==>
      QueryUnescape(a + b) == Some(QueryUnescape(a).value + rest)
  {
    assert (a + b)[k..] == a[k..] + b && (a + b)[..k] == a[..k];
    assert (a + b)[0] == a[0] && (k == 3 ==> (a + b)[1] == a[1] && (a + b)[2] == a[2]);
    var head := [QueryUnescape(a).value[0]];
    assert QueryUnescape(a).value == head + QueryUnescape(a[k..]).value;
    forall rest: string
      ensures head + (QueryUnescape(a[k..]).value + rest) == head + QueryUnescape(a[k..]).value + rest
    {
    }
  }

  lemma {:induction false} UnescapeConcat(a: string, b: string)
    requires QueryUnescape(a).Some?
    ensures QueryUnescape(a + b) ==
      match QueryUnescape(b) case None => None case Some(rest) => Some(QueryUnescape(a).value + rest)
    decreases |a|
  {
    if a == "" {
      assert a + b == b;
      assert QueryUnescape(b).Some? ==> "" + QueryUnescape(b).value == QueryUnescape(b).value;
    } else {
      var k := if a[0] == '%' then 3 else 1;
      UnescapeConcat(a[k..], b);
      HeadRead(a, b, k);
    }
  }

  lemma HexDigitRead(v: nat)
    requires v < 16
    ensures HexValue("0123456789ABCDEF"[v]) == Some(v) && HexValue("0123456789abcdef"[v]) == Some(v)
  {
  }

  lemma TwoDigitsRead(x: char, y: char, h: nat, l: nat)
    requires h < 16 && l < 16 && HexValue(x) == Some(h) && HexValue(y) == Some(l)
    ensures QueryUnescape(['%', x, y]) == Some([(16 * h + l) as char])
  {
    var c := (16 * h + l) as char;
    UnescapeHex(x, y, c, "");
    assert ['%', x, y] + "" == ['%', x, y];
    assert [c] + "" == [c];
  }

  /** A percent sign with two digits is a byte, a plus is a space, and anything else is
      itself. */
  lemma UnescapeOfByte(c: char, h: nat, l: nat)
    requires h < 16 && l < 16
    ensures QueryUnescape(['%', "0123456789ABCDEF"[h], "0123456789ABCDEF"[l]]) == Some([(16 * h + l) as char])
    ensures QueryUnescape(['%', "0123456789abcdef"[h], "0123456789abcdef"[l]]) == Some([(16 * h + l) as char])
    ensures c != '%' ==> QueryUnescape([c]) == Some([if c == '+' then ' ' else c])
  {
    HexDigitRead(h);
    HexDigitRead(l);
    assert [c][1..] == "" && [if c == '+' then ' ' else c] + "" == [if c == '+' then ' ' else c];
    TwoDigitsRead("0123456789ABCDEF"[h], "0123456789ABCDEF"[l], h, l);
    TwoDigitsRead("0123456789abcdef"[h], "0123456789abcdef"[l], h, l);
  }
}
