/** The domain names that isDomainName accepts, byte by byte: a second description that
    knows no labels, proved to agree with the label grammar (stellar_uri.go). */
module DomainPositions {
  import opened Texts
  import opened Decimals
  import opened DomainNames

  /** A byte that may stand in a name, other than a dot. */
  predicate IsNameByte(c: char) {
    'a' <= c <= 'z' || 'A' <= c <= 'Z' || '0' <= c <= '9' || c == '_' || c == '-'
  }

  /** Which byte may stand at position `i`: no dot or dash at the beginning or after a
      dot, and no dot after a dash. */
  predicate Fits(s: string, i: nat)
    requires i < |s|
  {
    && (IsNameByte(s[i]) || s[i] == '.')
    && (i == 0 || s[i - 1] == '.' ==> s[i] != '.' && s[i] != '-')
    && (i > 0 && s[i - 1] == '-' ==> s[i] != '.')
  }

  /** There is a dot among the 64 bytes from position `i`. */
  predicate DotWithin(s: string, i: nat)
    requires i + 64 <= |s|
  {
    exists j :: i <= j < i + 64 && s[j] == '.'
  }

  predicate AllFit(s: string) {
    (forall i :: 0 <= i < |s| ==> Fits(s, i)) && (forall i :: 0 <= i <= |s| - 64 ==> DotWithin(s, i))
  }

  lemma LastLabelOfSnoc(s: string)
    requires s != ""
    ensures var front, c := s[..|s| - 1], s[|s| - 1];
      LastLabel(s) == if c == '.' then "" else LastLabel(front) + [c]
  {
    PartsStep(s[..|s| - 1], s[|s| - 1]);
    assert s == s[..|s| - 1] + [s[|s| - 1]];
  }

  lemma SuffixSnoc(front: string, last: string, c: char)
    requires |last| <= |front| && last == front[|front| - |last|..]
    ensures var s := front + [c]; last + [c] == s[|s| - |last + [c]|..]
  {
  }

  /** The last label is what follows the last dot. */
  lemma {:induction false} LastLabelIsSuffix(s: string)
    ensures var n := |LastLabel(s)|;
      && n <= |s| && LastLabel(s) == s[|s| - n..]
      && (forall i :: |s| - n <= i < |s| ==> s[i] != '.')
      && (n < |s| ==> s[|s| - n - 1] == '.')
  {
    if s != "" {
      var front, c := s[..|s| - 1], s[|s| - 1];
      LastLabelOfSnoc(s);
      LastLabelIsSuffix(front);
      assert s == front + [c];
      if c != '.' {
        SuffixSnoc(front, LastLabel(front), c);
      }
    }
  }

  lemma {:induction false} FitsKept(s: string, c: char)
    ensures forall i :: 0 <= i < |s| ==> (Fits(s + [c], i) <==> Fits(s, i))
  {
    var t := s + [c];
    forall i | 0 <= i < |s| ensures Fits(t, i) <==> Fits(s, i) {
      assert t[i] == s[i] && (i > 0 ==> t[i - 1] == s[i - 1]);
    }
  }

  lemma DotKept(s: string, c: char, i: nat)
    requires i + 64 <= |s|
    ensures DotWithin(s + [c], i) <==> DotWithin(s, i)
  {
    assert forall j :: i <= j < i + 64 ==> (s + [c])[j] == s[j];
  }

  /** The last 64 bytes have a dot exactly when the last label is no longer than 63. */
  lemma LastWindow(s: string)
    requires |s| >= 64
    ensures DotWithin(s, |s| - 64) <==> |LastLabel(s)| <= 63
  {
    LastLabelIsSuffix(s);
    var n := |LastLabel(s)|;
    if n <= 63 {
      assert s[|s| - n - 1] == '.';
    }
  }

  lemma AllFitSnoc(s: string, c: char)
    ensures AllFit(s + [c]) <==>
      AllFit(s) && Fits(s + [c], |s|) && (|s| >= 63 ==> DotWithin(s + [c], |s| - 63))
  {
    var t := s + [c];
    FitsKept(s, c);
    forall i | 0 <= i <= |s| - 64 ensures DotWithin(t, i) <==> DotWithin(s, i) {
      DotKept(s, c, i);
    }
    if AllFit(t) {
      forall i | 0 <= i < |s| ensures Fits(s, i) {
        assert Fits(t, i);
      }
      forall i | 0 <= i <= |s| - 64 ensures DotWithin(s, i) {
        assert DotWithin(t, i);
      }
    }
  }

  /** The labels so far are fine, and the last one is not too long. */
  predicate Readable(s: string) {
    Continues(s) && |LastLabel(s)| <= 63
  }

  lemma ReadableSnoc(s: string, c: char)
    ensures Readable(s + [c]) <==>
      && Readable(s)
      && (if c == '.' then LastLabel(s) != "" && LastLabel(s)[|LastLabel(s)| - 1] != '-'
          else IsLabelChar(c) && (LastLabel(s) == "" ==> c != '-') && |LastLabel(s)| < 63)
  {
    if Continues(s) {
      ScanStep(s, c);
      ContinuesByParts(s);
    } else {
      StaysBroken(s, c);
    }
  }

  lemma LastByte(s: string)
    ensures LastLabel(s) == "" <==> s == "" || s[|s| - 1] == '.'
    ensures LastLabel(s) != "" ==> LastLabel(s)[|LastLabel(s)| - 1] == s[|s| - 1]
  {
    LastLabelIsSuffix(s);
  }

  lemma LastFits(s: string, c: char)
    ensures Fits(s + [c], |s|) <==>
      if c == '.' then s != "" && s[|s| - 1] != '.' && s[|s| - 1] != '-'
      else IsNameByte(c) && ((s == "" || s[|s| - 1] == '.') ==> c != '-')
  {
    var t := s + [c];
    assert t[|s|] == c && (s != "" ==> t[|s| - 1] == s[|s| - 1]);
  }

  lemma NextWindow(s: string, c: char)
    requires |LastLabel(s)| <= 63
    ensures (|s| >= 63 ==> DotWithin(s + [c], |s| - 63)) <==> c == '.' || |LastLabel(s)| < 63
  {
    LastLabelOfSnoc(s + [c]);
    assert (s + [c])[..|s|] == s;
    LastLabelIsSuffix(s);
    if |s| >= 63 {
      LastWindow(s + [c]);
    }
  }

  /** One more byte fits by its position exactly when it fits the labels. */
  lemma NextByteFits(s: string, c: char)
    requires Readable(s)
    ensures Fits(s + [c], |s|) && (|s| >= 63 ==> DotWithin(s + [c], |s| - 63)) <==>
      if c == '.' then LastLabel(s) != "" && LastLabel(s)[|LastLabel(s)| - 1] != '-'
      else IsLabelChar(c) && (LastLabel(s) == "" ==> c != '-') && |LastLabel(s)| < 63
  {
    LastByte(s);
    LastFits(s, c);
    NextWindow(s, c);
  }

  lemma {:induction false} ReadableByPositions(s: string)
    ensures Readable(s) <==> AllFit(s)
  {
    if s != "" {
      var front, c := s[..|s| - 1], s[|s| - 1];
      assert s == front + [c];
      ReadableByPositions(front);
      AllFitSnoc(front, c);
      ReadableSnoc(front, c);
      if Readable(front) {
        NextByteFits(front, c);
      }
    }
  }

  /** A domain name, without its labels: 1 to 253 bytes, or 254 when the last is a dot;
      letters, digits, underscores, dashes and dots; no dot or dash at the beginning or
      after a dot, no dash before a dot or at the end; a dot among any 64 neighbours;
      and a letter or underscore somewhere. */
  lemma NameByPositions(s: string)
    ensures DomainName(s) <==>
      && (1 <= |s| <= 253 || (|s| == 254 && s[253] == '.'))
      && (forall i :: 0 <= i < |s| ==> Fits(s, i))
      && s[|s| - 1] != '-'
      && (forall i :: 0 <= i <= |s| - 64 ==> DotWithin(s, i))
      && (exists i :: 0 <= i < |s| && ('a' <= s[i] <= 'z' || 'A' <= s[i] <= 'Z' || s[i] == '_'))
  {
    NameByLastLabel(s);
    ReadableByPositions(s);
    LastByte(s);
    if HasLetter(s) {
      var i :| 0 <= i < |s| && IsLetter(s[i]);
    }
    if exists i :: 0 <= i < |s| && ('a' <= s[i] <= 'z' || 'A' <= s[i] <= 'Z' || s[i] == '_') {
      var i :| 0 <= i < |s| && ('a' <= s[i] <= 'z' || 'A' <= s[i] <= 'Z' || s[i] == '_');
      assert IsLetter(s[i]);
    }
  }
}
