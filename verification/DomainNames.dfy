/** isDomainName (stellar_uri.go): a one-pass scanner, proved to accept exactly the
    names of a declarative label grammar. Sizes follow section 2.3.4 of RFC 1035;
    labels may begin with a digit as in section 2.1 of RFC 1123. */
module DomainNames {
  import opened Texts
  import opened Decimals

  predicate IsLetter(c: char) {
    'a' <= c <= 'z' || 'A' <= c <= 'Z' || c == '_'
  }

  predicate IsLabelChar(c: char) {
    IsLetter(c) || IsDigit(c) || c == '-'
  }

  /** Characters of a label that may still grow: no dash in front. */
  predicate LabelStart(part: string) {
    && (forall i :: 0 <= i < |part| ==> IsLabelChar(part[i]))
    && (part != "" ==> part[0] != '-')
  }

  /** One to sixty-three letters, digits, underscores or dashes, with no dash at
      either end. */
  predicate ValidLabel(part: string) {
    && 1 <= |part| <= 63
    && LabelStart(part)
    && part[|part| - 1] != '-'
  }

  predicate HasLetter(s: string) {
    exists i :: 0 <= i < |s| && IsLetter(s[i])
  }

  /** At most 253 bytes, or 254 when the last of them is a dot. */
  predicate ValidLength(s: string) {
    1 <= |s| <= 253 || (|s| == 254 && s[253] == '.')
  }

  /** Dot-separated valid labels, of which the last one may be missing after a final
      dot, with a letter or underscore somewhere. */
  predicate DomainName(s: string) {
    var labels := Split(s, '.');
    var last := labels[|labels| - 1];
    && ValidLength(s)
    && (forall i :: 0 <= i < |labels| - 1 ==> ValidLabel(labels[i]))
    && (ValidLabel(last) || (last == "" && |labels| > 1))
    && HasLetter(s)
  }

  /** A prefix from which the scanner can still continue. */
  predicate Continues(s: string) {
    var labels := Split(s, '.');
    && (forall i :: 0 <= i < |labels| - 1 ==> ValidLabel(labels[i]))
    && LabelStart(labels[|labels| - 1])
  }

  function LastLabel(s: string): string {
    Split(s, '.')[|Split(s, '.')| - 1]
  }

  lemma SplitStep(s: string, c: char)
    ensures Split(s + [c], '.') == if c == '.' then Split(s, '.') + [""]
      else Split(s, '.')[..|Split(s, '.')| - 1] + [LastLabel(s) + [c]]
  {
    assert (s + [c])[..|s + [c]| - 1] == s;
  }

  predicate AllValid(labels: seq<string>) {
    forall i :: 0 <= i < |labels| ==> ValidLabel(labels[i])
  }

  lemma AllValidAppended(labels: seq<string>, part: string)
    ensures AllValid(labels + [part]) <==> AllValid(labels) && ValidLabel(part)
  {
    var more := labels + [part];
    assert more[|labels|] == part;
    assert forall i :: 0 <= i < |labels| ==> more[i] == labels[i];
  }

  /** Every label but the last. */
  function FrontLabels(s: string): seq<string> {
    Split(s, '.')[..|Split(s, '.')| - 1]
  }

  lemma ContinuesByParts(s: string)
    ensures Continues(s) <==> AllValid(FrontLabels(s)) && LabelStart(LastLabel(s))
  {
    var labels := Split(s, '.');
    assert forall i :: 0 <= i < |labels| - 1 ==> FrontLabels(s)[i] == labels[i];
  }

  lemma FrontAndLast(labels: seq<string>, front: seq<string>, last: string)
    requires labels == front + [last]
    ensures labels[..|labels| - 1] == front && labels[|labels| - 1] == last
  {
  }

  lemma PartsStep(s: string, c: char)
    ensures FrontLabels(s + [c]) == if c == '.' then FrontLabels(s) + [LastLabel(s)] else FrontLabels(s)
    ensures LastLabel(s + [c]) == if c == '.' then "" else LastLabel(s) + [c]
  {
    SplitStep(s, c);
    var labels := Split(s, '.');
    assert labels == FrontLabels(s) + [LastLabel(s)];
    if c == '.' {
      FrontAndLast(Split(s + [c], '.'), labels, "");
    } else {
      FrontAndLast(Split(s + [c], '.'), FrontLabels(s), LastLabel(s) + [c]);
    }
  }

  /** One more byte: a dot closes the last label, anything else extends it. */
  lemma ContinuesStep(s: string, c: char)
    ensures Continues(s + [c]) <==>
      AllValid(FrontLabels(s)) && if c == '.' then ValidLabel(LastLabel(s)) else LabelStart(LastLabel(s) + [c])
  {
    ContinuesByParts(s + [c]);
    PartsStep(s, c);
    AllValidAppended(FrontLabels(s), LastLabel(s));
  }

  lemma GrownLabel(part: string, c: char)
    ensures LabelStart(part + [c]) <==> LabelStart(part) && IsLabelChar(c) && (part == "" ==> c != '-')
  {
    var grown := part + [c];
    assert grown[|part|] == c;
    assert forall i :: 0 <= i < |part| ==> grown[i] == part[i];
  }

  /** What one more byte does to the labels read so far. */
  lemma ScanStep(s: string, c: char)
    requires Continues(s)
    ensures LastLabel(s + [c]) == if c == '.' then "" else LastLabel(s) + [c]
    ensures c == '.' ==> (Continues(s + [c]) <==> ValidLabel(LastLabel(s)))
    ensures c != '.' ==> (Continues(s + [c]) <==> IsLabelChar(c) && (LastLabel(s) == "" ==> c != '-'))
  {
    ContinuesByParts(s);
    ContinuesStep(s, c);
    PartsStep(s, c);
    GrownLabel(LastLabel(s), c);
  }

  lemma StaysBroken(s: string, c: char)
    requires !Continues(s)
    ensures !Continues(s + [c])
  {
    ContinuesByParts(s);
    ContinuesStep(s, c);
    GrownLabel(LastLabel(s), c);
  }

  /** Once a prefix cannot continue, no longer text is a domain name. */
  lemma {:induction false} NoRecovery(s: string, rest: string)
    requires !Continues(s)
    ensures !Continues(s + rest)
  {
    if rest == "" {
      assert s + rest == s;
    } else {
      var front, c := rest[..|rest| - 1], rest[|rest| - 1];
      NoRecovery(s, front);
      assert s + rest == s + front + [c];
      StaysBroken(s + front, c);
    }
  }

  lemma {:induction false} OneLabel(s: string)
    requires |Split(s, '.')| == 1
    ensures Split(s, '.') == [s]
  {
    if s != "" {
      var front, c := s[..|s| - 1], s[|s| - 1];
      assert s == front + [c];
      SplitStep(front, c);
      OneLabel(front);
    }
  }

  /** The grammar in terms of the scanner's final state. */
  lemma NameByLastLabel(s: string)
    ensures DomainName(s) <==>
      && ValidLength(s) && Continues(s) && HasLetter(s)
      && |LastLabel(s)| <= 63
      && (LastLabel(s) != "" ==> LastLabel(s)[|LastLabel(s)| - 1] != '-')
  {
    var labels := Split(s, '.');
    if |labels| == 1 && LastLabel(s) == "" && s != "" {
      OneLabel(s);
    }
  }

  /** The scanner's variables after reading `p`. */
  predicate Tracks(p: string, last: char, partlen: nat, ok: bool) {
    && Continues(p)
    && partlen == |LastLabel(p)|
    && last == (if LastLabel(p) == "" then '.' else LastLabel(p)[|LastLabel(p)| - 1])
    && ok == HasLetter(p)
  }

  lemma LetterStep(s: string, c: char)
    ensures HasLetter(s + [c]) <==> HasLetter(s) || IsLetter(c)
  {
    var t := s + [c];
    if HasLetter(s) {
      var i :| 0 <= i < |s| && IsLetter(s[i]);
      assert IsLetter(t[i]);
    } else if IsLetter(c) {
      assert IsLetter(t[|s|]);
    }
  }

  lemma LabelByte(p: string, c: char, last: char, partlen: nat, ok: bool)
    requires Tracks(p, last, partlen, ok) && (IsLetter(c) || IsDigit(c))
    ensures Tracks(p + [c], c, partlen + 1, ok || IsLetter(c))
  {
    ScanStep(p, c);
    LetterStep(p, c);
  }

  lemma NoDotInLabel(p: string)
    requires Continues(p) && LastLabel(p) != ""
    ensures LastLabel(p)[|LastLabel(p)| - 1] != '.'
  {
    assert IsLabelChar(LastLabel(p)[|LastLabel(p)| - 1]);
  }

  lemma DashByte(p: string, last: char, partlen: nat, ok: bool)
    requires Tracks(p, last, partlen, ok)
    ensures if last == '.' then !Continues(p + ['-']) else Tracks(p + ['-'], '-', partlen + 1, ok)
  {
    ScanStep(p, '-');
    LetterStep(p, '-');
    if LastLabel(p) != "" {
      NoDotInLabel(p);
    }
  }

  lemma DotByte(p: string, last: char, partlen: nat, ok: bool)
    requires Tracks(p, last, partlen, ok)
    ensures if last == '.' || last == '-' || partlen > 63 || partlen == 0 then !Continues(p + ['.'])
      else Tracks(p + ['.'], '.', 0, ok)
  {
    ScanStep(p, '.');
    LetterStep(p, '.');
    if LastLabel(p) != "" {
      NoDotInLabel(p);
    }
  }

  lemma OtherByte(p: string, c: char)
    requires Continues(p) && !IsLabelChar(c) && c != '.'
    ensures !Continues(p + [c])
  {
    ScanStep(p, c);
  }

  /** A broken prefix rules the whole text out. */
  lemma BrokenPrefix(s: string, k: nat)
    requires k <= |s| && !Continues(s[..k])
    ensures !DomainName(s)
  {
    NoRecovery(s[..k], s[k..]);
    assert s[..k] + s[k..] == s;
    NameByLastLabel(s);
  }

  /** The answer from the variables after the last byte. */
  lemma FinalState(s: string, last: char, partlen: nat, ok: bool)
    requires Tracks(s, last, partlen, ok) && ValidLength(s)
    ensures DomainName(s) <==> ok && last != '-' && partlen <= 63
  {
    NameByLastLabel(s);
  }

  /** Whether the scanner reads on after a byte. */
  predicate ReadsOn(c: char, last: char, partlen: nat) {
    if c == '-' then last != '.'
    else if c == '.' then last != '.' && last != '-' && 0 < partlen <= 63
    else IsLetter(c) || IsDigit(c)
  }

  lemma ScanByte(s: string, i: nat, last: char, partlen: nat, ok: bool)
    requires i < |s| && Tracks(s[..i], last, partlen, ok)
    ensures if ReadsOn(s[i], last, partlen)
      then Tracks(s[..i + 1], s[i], if s[i] == '.' then 0 else partlen + 1, ok || IsLetter(s[i]))
      else !DomainName(s)
  {
    var p, c := s[..i], s[i];
    assert s[..i + 1] == p + [c];
    if c == '-' {
      DashByte(p, last, partlen, ok);
    } else if c == '.' {
      DotByte(p, last, partlen, ok);
    } else if IsLetter(c) || IsDigit(c) {
      LabelByte(p, c, last, partlen, ok);
    } else {
      OtherByte(p, c);
    }
    if !ReadsOn(c, last, partlen) {
      BrokenPrefix(s, i + 1);
    }
  }

  method IsDomainName(s: string) returns (accepted: bool)
    ensures accepted == DomainName(s)
  {
    var l := |s|;
    if l == 0 || l > 254 || (l == 254 && s[l - 1] != '.') {
      return false;
    }
    var last := '.';
    var ok := false;
    var partlen := 0;
    for i := 0 to |s|
      invariant Tracks(s[..i], last, partlen, ok)
    {
      var c := s[i];
      ScanByte(s, i, last, partlen, ok);
      if IsLetter(c) {
        ok := true;
        partlen := partlen + 1;
      } else if IsDigit(c) {
        partlen := partlen + 1;
      } else if c == '-' {
        if last == '.' {
          return false;
        }
        partlen := partlen + 1;
      } else if c == '.' {
        if last == '.' || last == '-' {
          return false;
        }
        if partlen > 63 || partlen == 0 {
          return false;
        }
        partlen := 0;
      } else {
        return false;
      }
      last := c;
    }
    assert s[..|s|] == s;
    FinalState(s, last, partlen, ok);
    if last == '-' || partlen > 63 {
      return false;
    }
    return ok;
  }
}
