/** Decimal text: digit strings and the numbers they denote, the strict decimal
    syntax of amounts.go, and the fixed-point rendering shared by math/big's
    FloatString and shopspring's Decimal.string.

    A Go string is a sequence of bytes; here each `char` stands for one byte. */
module Decimals {
  import opened Texts

  predicate IsDigit(c: char) {
    '0' <= c <= '9'
  }

  predicate AllDigits(s: string) {
    forall i :: 0 <= i < |s| ==> IsDigit(s[i])
  }

  function DigitValue(c: char): nat
    requires IsDigit(c)
  {
    c as int - '0' as int
  }

  function DigitChar(d: nat): (c: char)
    requires d < 10
    ensures IsDigit(c) && DigitValue(c) == d
  {
    (d + '0' as int) as char
  }

  function Pow10(n: nat): (p: nat)
    ensures p >= 1
  {
    if n == 0 then 1 else 10 * Pow10(n - 1)
  }

  /** The number a digit string denotes; the empty string denotes zero. */
  function NatValue(ds: string): nat
    requires AllDigits(ds)
  {
    if ds == "" then 0
    else 10 * NatValue(ds[..|ds| - 1]) + DigitValue(ds[|ds| - 1])
  }

  /** The shortest digit string for `n`. */
  function NatToString(n: nat): (s: string)
    ensures s != "" && AllDigits(s)
  {
    if n < 10 then [DigitChar(n)] else NatToString(n / 10) + [DigitChar(n % 10)]
  }

  function Zeros(n: nat): (s: string)
    ensures |s| == n && AllDigits(s)
  {
    if n == 0 then "" else Zeros(n - 1) + "0"
  }

  function PadLeft(ds: string, width: nat): string
    requires |ds| <= width
  {
    Zeros(width - |ds|) + ds
  }

  // ---------------------------------------------------------------- digits

  lemma {:induction false} Pow10Sum(a: nat, b: nat)
    ensures Pow10(a + b) == Pow10(a) * Pow10(b)
  {
    if a > 0 {
      Pow10Sum(a - 1, b);
      assert Pow10(a + b) == 10 * Pow10(a + b - 1);
      assert Pow10(a) * Pow10(b) == 10 * (Pow10(a - 1) * Pow10(b));
    }
  }

  /** The last digit of a concatenation is the last digit of its second part. */
  lemma NatValueOfConcat(a: string, b: string)
    requires AllDigits(a) && AllDigits(b) && b != ""
    ensures AllDigits(a + b) && AllDigits(a + b[..|b| - 1])
    ensures NatValue(a + b) == 10 * NatValue(a + b[..|b| - 1]) + DigitValue(b[|b| - 1])
  {
    assert (a + b)[..|a + b| - 1] == a + b[..|b| - 1];
    assert (a + b)[|a + b| - 1] == b[|b| - 1];
  }

  lemma TimesTen(x: int, p: int)
    ensures 10 * (x * p) == x * (10 * p)
  {
  }

  lemma {:induction false} NatValueConcat(a: string, b: string)
    requires AllDigits(a) && AllDigits(b)
    ensures AllDigits(a + b)
    ensures NatValue(a + b) == NatValue(a) * Pow10(|b|) + NatValue(b)
  {
    if b == "" {
      assert a + b == a;
    } else {
      var b' := b[..|b| - 1];
      NatValueConcat(a, b');
      NatValueOfConcat(a, b);
      TimesTen(NatValue(a), Pow10(|b'|));
    }
  }

  lemma NatValueZeros(n: nat)
    ensures NatValue(Zeros(n)) == 0
  {
  }

  lemma {:induction false} NatToStringValue(n: nat)
    ensures NatValue(NatToString(n)) == n
  {
    if n >= 10 {
      NatToStringValue(n / 10);
      assert NatToString(n)[..|NatToString(n)| - 1] == NatToString(n / 10);
    }
  }

  lemma {:induction false} NatToStringWidth(n: nat, k: nat)
    requires k >= 1
    ensures n < Pow10(k) <==> |NatToString(n)| <= k
  {
    if n >= 10 && k > 1 {
      NatToStringWidth(n / 10, k - 1);
      assert n < 10 * Pow10(k - 1) <==> n / 10 < Pow10(k - 1);
    } else if k > 1 {
      assert Pow10(k) == 10 * Pow10(k - 1);
    } else {
      assert Pow10(1) == 10;
    }
  }

  // ------------------------------------------------- strict decimal syntax

  /** `s` without the optional leading minus sign. */
  function Unsigned(s: string): string {
    if s != "" && s[0] == '-' then s[1..] else s
  }

  predicate Negative(s: string) {
    s != "" && s[0] == '-'
  }

  /** First branch of the alternation: `\d+\.?\d*`. */
  predicate MatchesWholeFirst(b: string) {
    exists i, j :: 1 <= i <= j <= |b| && j - i <= 1 &&
      AllDigits(b[..i]) && (j == i + 1 ==> b[i] == '.') && AllDigits(b[j..])
  }

  /** Second branch of the alternation: `\d*\.?\d+`. */
  predicate MatchesFractionLast(b: string) {
    exists i, j :: 0 <= i <= j < |b| && j - i <= 1 &&
      AllDigits(b[..i]) && (j == i + 1 ==> b[i] == '.') && AllDigits(b[j..])
  }

  /** `^-?((\d+\.?\d*)|(\d*\.?\d+))$` */
  predicate MatchesDecimalStrict(s: string) {
    || MatchesWholeFirst(s) || MatchesFractionLast(s)
    || (Negative(s) && (MatchesWholeFirst(s[1..]) || MatchesFractionLast(s[1..])))
  }

  /** The shape the expression is meant for: an optional minus sign, then digits
      with at most one dot among them and at least one digit. */
  predicate DecimalShape(s: string) {
    var b := Unsigned(s);
    && (forall i :: 0 <= i < |b| ==> IsDigit(b[i]) || b[i] == '.')
    && (forall i, j :: 0 <= i < j < |b| ==> !(b[i] == '.' && b[j] == '.'))
    && (exists i :: 0 <= i < |b| && IsDigit(b[i]))
  }

  function WholeDigits(s: string): string {
    var b := Unsigned(s);
    b[..IndexOf(b, '.')]
  }

  function FractionDigits(s: string): string {
    var b := Unsigned(s);
    var k := IndexOf(b, '.');
    if k < |b| then b[k + 1..] else ""
  }

  lemma ShapeHasParts(s: string)
    requires DecimalShape(s)
    ensures AllDigits(WholeDigits(s)) && AllDigits(FractionDigits(s)) && |WholeDigits(s)| + |FractionDigits(s)| > 0
  {
    var b := Unsigned(s);
    var k := IndexOf(b, '.');
    var f := FractionDigits(s);
    forall i | 0 <= i < |f| ensures IsDigit(f[i]) {
      assert f[i] == b[k + 1 + i];
    }
    var i :| 0 <= i < |b| && IsDigit(b[i]);
    assert i != k;
  }

  lemma PartsHaveShape(s: string)
    requires AllDigits(WholeDigits(s)) && AllDigits(FractionDigits(s)) && |WholeDigits(s)| + |FractionDigits(s)| > 0
    ensures DecimalShape(s)
  {
    var b := Unsigned(s);
    var k := IndexOf(b, '.');
    var w, f := WholeDigits(s), FractionDigits(s);
    forall i | 0 <= i < |b| ensures IsDigit(b[i]) || (b[i] == '.' && i == k) {
      if i < k {
        assert w[i] == b[i];
      } else if i > k {
        assert f[i - k - 1] == b[i];
      }
    }
    var d := if |w| > 0 then 0 else k + 1;
    assert IsDigit(b[d]) by {
      assert b[d] == if |w| > 0 then w[0] else f[0];
    }
  }

  lemma ShapeSplits(s: string)
    ensures DecimalShape(s) <==>
      AllDigits(WholeDigits(s)) && AllDigits(FractionDigits(s)) && |WholeDigits(s)| + |FractionDigits(s)| > 0
  {
    if DecimalShape(s) {
      ShapeHasParts(s);
    } else if AllDigits(WholeDigits(s)) && AllDigits(FractionDigits(s)) && |WholeDigits(s)| + |FractionDigits(s)| > 0 {
      PartsHaveShape(s);
    }
  }

  /** A sign is no digit, so neither branch matches a signed text itself. */
  lemma SignIsNoDigit(s: string)
    requires Negative(s)
    ensures !MatchesWholeFirst(s) && !MatchesFractionLast(s)
  {
  }

  /** What either branch says in terms of the parts around the first dot. */
  predicate SplitsAtDot(b: string) {
    var k := IndexOf(b, '.');
    AllDigits(b[..k]) && (k < |b| ==> AllDigits(b[k + 1..])) && |b| > (if k < |b| then 1 else 0)
  }

  lemma WholeFirstSplits(b: string)
    requires MatchesWholeFirst(b)
    ensures SplitsAtDot(b)
  {
  }

  lemma FractionLastSplits(b: string)
    requires MatchesFractionLast(b)
    ensures SplitsAtDot(b)
  {
  }

  lemma PartsMatch(b: string)
    requires SplitsAtDot(b)
    ensures MatchesWholeFirst(b) || MatchesFractionLast(b)
  {
    var k := IndexOf(b, '.');
    var j := if k < |b| then k + 1 else k;
    assert AllDigits(b[j..]);
    if k >= 1 {
      assert 1 <= k <= j <= |b| && j - k <= 1 && AllDigits(b[..k]) && (j == k + 1 ==> b[k] == '.') && AllDigits(b[j..]);
    } else {
      assert 0 <= k <= j < |b| && j - k <= 1 && AllDigits(b[..k]) && (j == k + 1 ==> b[k] == '.') && AllDigits(b[j..]);
    }
  }

  lemma BranchesAreParts(b: string)
    ensures (MatchesWholeFirst(b) || MatchesFractionLast(b)) <==> SplitsAtDot(b)
  {
    if MatchesWholeFirst(b) {
      WholeFirstSplits(b);
    } else if MatchesFractionLast(b) {
      FractionLastSplits(b);
    } else if SplitsAtDot(b) {
      PartsMatch(b);
    }
  }

  /** The alternation of amounts.go recognises exactly the intended shape. */
  lemma StrictExpressionIsShape(s: string)
    ensures MatchesDecimalStrict(s) <==> DecimalShape(s)
  {
    ShapeSplits(s);
    BranchesAreParts(Unsigned(s));
    if Negative(s) {
      SignIsNoDigit(s);
    }
  }

  // ---------------------------------------------------------------- values

  /** A decimal number: `coefficient / 10^places`. */
  datatype Decimal = Decimal(coefficient: int, places: nat)

  predicate SameValue(a: Decimal, b: Decimal) {
    a.coefficient * Pow10(b.places) == b.coefficient * Pow10(a.places)
  }

  function Signed(negative: bool, n: int): int {
    if negative then -n else n
  }

  /** The number a strict decimal denotes. */
  function ReadDecimal(s: string): Decimal
    requires DecimalShape(s)
  {
    ShapeSplits(s);
    NatValueConcat(WholeDigits(s), FractionDigits(s));
    Decimal(Signed(Negative(s), NatValue(WholeDigits(s) + FractionDigits(s))), |FractionDigits(s)|)
  }

  lemma IndexGrows(b: string, c: char)
    requires c != '.'
    ensures IndexOf(b + [c], '.') == if '.' in b then IndexOf(b, '.') else |b| + 1
  {
    var k := IndexOf(b, '.');
    if '.' in b {
      IndexOfUnique(b + [c], '.', k);
    } else {
      IndexOfUnique(b + [c], '.', |b| + 1);
    }
  }

  lemma PartsGrow(s: string, c: char)
    requires s != "" && c != '.' && (Negative(s) ==> |s| > 1)
    ensures Negative(s + [c]) == Negative(s) && Unsigned(s + [c]) == Unsigned(s) + [c]
    ensures WholeDigits(s + [c]) == if '.' in Unsigned(s) then WholeDigits(s) else WholeDigits(s) + [c]
    ensures FractionDigits(s + [c]) == if '.' in Unsigned(s) then FractionDigits(s) + [c] else FractionDigits(s)
  {
    var b := Unsigned(s);
    assert Unsigned(s + [c]) == b + [c];
    IndexGrows(b, c);
    var k := IndexOf(b, '.');
    if '.' in b {
      assert (b + [c])[..k] == b[..k];
      assert (b + [c])[k + 1..] == b[k + 1..] + [c];
    } else {
      assert (b + [c])[..|b| + 1] == b + [c];
      assert b[..k] == b;
    }
  }

  lemma NatValueSnoc(ds: string, c: char)
    requires AllDigits(ds) && IsDigit(c)
    ensures AllDigits(ds + [c]) && NatValue(ds + [c]) == 10 * NatValue(ds) + (c as int - '0' as int)
  {
    assert (ds + [c])[..|ds|] == ds;
  }

  lemma SignedSnoc(negative: bool, n: int, d: int)
    ensures Signed(negative, 10 * n + d) == 10 * Signed(negative, n) + Signed(negative, d)
  {
  }

  lemma DotInUnsigned(s: string)
    ensures '.' in s <==> '.' in Unsigned(s)
  {
    if Negative(s) {
      assert s == ['-'] + Unsigned(s);
    }
  }

  lemma ConcatGrows(w: string, f: string, c: char)
    ensures w + (f + [c]) == w + f + [c]
    ensures f == "" ==> w + [c] + f == w + f + [c]
  {
  }

  lemma DigitsGrow(s: string, c: char)
    requires s != "" && c != '.' && (Negative(s) ==> |s| > 1)
    ensures Negative(s + [c]) == Negative(s)
    ensures WholeDigits(s + [c]) + FractionDigits(s + [c]) == WholeDigits(s) + FractionDigits(s) + [c]
    ensures |FractionDigits(s + [c])| == |FractionDigits(s)| + if '.' in s then 1 else 0
  {
    PartsGrow(s, c);
    DotInUnsigned(s);
    ConcatGrows(WholeDigits(s), FractionDigits(s), c);
  }

  lemma ShapeGrows(s: string, c: char)
    requires DecimalShape(s) && IsDigit(c)
    ensures DecimalShape(s + [c]) && AllDigits(WholeDigits(s) + FractionDigits(s))
  {
    ShapeHasParts(s);
    PartsGrow(s, c);
    PartsHaveShape(s + [c]);
  }

  /** One more digit: ten times the number and the digit, counted away from zero, with
      one place more when it stands behind the dot. */
  lemma DigitAppended(s: string, c: char)
    requires DecimalShape(s) && '0' <= c <= '9'
    ensures DecimalShape(s + [c])
    ensures ReadDecimal(s + [c]).places == ReadDecimal(s).places + if '.' in s then 1 else 0
    ensures var digit := c as int - '0' as int;
      ReadDecimal(s + [c]).coefficient == 10 * ReadDecimal(s).coefficient + if s[0] == '-' then -digit else digit
  {
    DigitsGrow(s, c);
    ShapeGrows(s, c);
    var digits := WholeDigits(s) + FractionDigits(s);
    NatValueSnoc(digits, c);
    SignedSnoc(Negative(s), NatValue(digits), c as int - '0' as int);
  }

  /** A dot at the end changes nothing. */
  lemma DotAppended(s: string)
    requires DecimalShape(s) && '.' !in s
    ensures DecimalShape(s + ".") && ReadDecimal(s + ".") == ReadDecimal(s)
  {
    var b := Unsigned(s);
    DotInUnsigned(s);
    assert IndexOf(b, '.') == |b|;
    assert b[..|b|] == b;
    assert Unsigned(s + ".") == b + ".";
    IndexOfUnique(b + ".", '.', |b|);
    assert (b + ".")[..|b|] == b && (b + ".")[|b| + 1..] == "";
    ShapeSplits(s);
    ShapeSplits(s + ".");
  }

  lemma OneDigitParts(s: string, b: string, c: char)
    requires '0' <= c <= '9' && (b == [c] || b == ['.', c]) && (s == b || s == "-" + b)
    ensures Negative(s) == (s != b) && Unsigned(s) == b
    ensures if b == [c] then WholeDigits(s) == [c] && FractionDigits(s) == "" else WholeDigits(s) == "" && FractionDigits(s) == [c]
  {
    if s != b {
      assert s[1..] == b;
    }
    IndexOfUnique(b, '.', if b == [c] then 1 else 0);
    assert [c][..1] == [c] && ['.', c][1..] == [c] && ['.', c][..0] == "";
  }

  lemma DigitValueOf(c: char)
    requires '0' <= c <= '9'
    ensures AllDigits([c]) && NatValue([c]) == c as int - '0' as int
  {
    assert [c][..0] == "";
  }

  lemma OneDigitRead(s: string, c: char)
    requires '0' <= c <= '9' && WholeDigits(s) + FractionDigits(s) == [c]
    requires AllDigits(WholeDigits(s)) && AllDigits(FractionDigits(s))
    ensures DecimalShape(s)
    ensures ReadDecimal(s) == Decimal(Signed(Negative(s), c as int - '0' as int), |FractionDigits(s)|)
  {
    assert |WholeDigits(s)| + |FractionDigits(s)| == |[c]|;
    PartsHaveShape(s);
    DigitValueOf(c);
  }

  /** The shortest texts: a digit, with or without a dot before it, and its negative. */
  lemma OneDigit(s: string, b: string, c: char)
    requires '0' <= c <= '9' && (b == [c] || b == ['.', c]) && (s == b || s == "-" + b)
    ensures DecimalShape(s)
    ensures var digit := c as int - '0' as int;
      ReadDecimal(s) == Decimal(if s == b then digit else -digit, if b == [c] then 0 else 1)
  {
    OneDigitParts(s, b, c);
    OneDigitRead(s, c);
  }

  // ----------------------------------------------------- fixed-point output

  /** `n` without its last `places` digits. */
  function LeadingPart(n: nat, places: nat): nat {
    if places == 0 then n else LeadingPart(n / 10, places - 1)
  }

  /** The last `places` digits of `n`, with zeros where `n` has none. */
  function LastDigits(n: nat, places: nat): (ds: string)
    ensures |ds| == places && AllDigits(ds)
  {
    if places == 0 then "" else LastDigits(n / 10, places - 1) + [DigitChar(n % 10)]
  }

  lemma PartsTimesTen(n: nat, q: nat, p: nat, v: nat)
    requires n / 10 == q * p + v
    ensures n == q * (10 * p) + (10 * v + n % 10)
  {
    TimesTen(q, p);
  }

  /** The two parts are quotient and remainder by the power of ten. */
  lemma {:induction false} PartsOfNumber(n: nat, places: nat)
    ensures n == LeadingPart(n, places) * Pow10(places) + NatValue(LastDigits(n, places))
    ensures NatValue(LastDigits(n, places)) < Pow10(places)
  {
    if places > 0 {
      PartsOfNumber(n / 10, places - 1);
      var q, ds := LeadingPart(n, places), LastDigits(n, places);
      assert ds[..|ds| - 1] == LastDigits(n / 10, places - 1);
      PartsTimesTen(n, q, Pow10(places - 1), NatValue(LastDigits(n / 10, places - 1)));
    }
  }

  lemma SplitSnoc(front: string, last: char, k: nat)
    requires k <= |front|
    ensures var ds := front + [last];
      ds[..|ds| - (k + 1)] == front[..|front| - k] && ds[|ds| - (k + 1)..] == front[|front| - k..] + [last]
  {
  }

  lemma PadSnoc(front: string, last: char, width: nat)
    requires |front| <= width
    ensures PadLeft(front + [last], width + 1) == PadLeft(front, width) + [last]
  {
  }

  lemma {:induction false} LeadingZero(places: nat)
    ensures LeadingPart(0, places) == 0 && LastDigits(0, places) == Zeros(places)
  {
    if places > 0 {
      LeadingZero(places - 1);
    }
  }

  /** The digits of `n` around the position of the dot. */
  lemma {:induction false} DigitsAroundDot(n: nat, places: nat)
    ensures var ds := NatToString(n);
      if |ds| > places
      then ds[..|ds| - places] == NatToString(LeadingPart(n, places)) && ds[|ds| - places..] == LastDigits(n, places)
      else LeadingPart(n, places) == 0 && (places > 0 ==> PadLeft(ds, places) == LastDigits(n, places))
  {
    if places > 0 {
      if n >= 10 {
        DigitsAroundDot(n / 10, places - 1);
        var front, last := NatToString(n / 10), DigitChar(n % 10);
        if |front| > places - 1 {
          SplitSnoc(front, last, places - 1);
        } else {
          PadSnoc(front, last, places - 1);
        }
      } else {
        LeadingZero(places - 1);
      }
    }
  }

  /** `n / 10^places` with exactly `places` digits after the dot. */
  function Fixed(negative: bool, n: nat, places: nat): string {
    (if negative then "-" else "") + NatToString(LeadingPart(n, places)) + "." + LastDigits(n, places)
  }

  lemma DottedParts(negative: bool, w: string, f: string, s: string)
    requires AllDigits(w) && w != "" && AllDigits(f)
    requires s == (if negative then "-" else "") + w + "." + f
    ensures Negative(s) == negative && Unsigned(s) == w + "." + f
    ensures WholeDigits(s) == w && FractionDigits(s) == f
  {
    var b := w + "." + f;
    assert IsDigit(w[0]) && b[0] == w[0];
    if negative {
      assert s == "-" + b;
      assert s[1..] == b;
    } else {
      assert s == b;
    }
    IndexOfUnique(b, '.', |w|);
    assert b[..|w|] == w;
    assert b[|w| + 1..] == f;
  }

  /** A rendered number is a strict decimal that reads back as itself. */
  lemma FixedReads(negative: bool, n: nat, places: nat)
    ensures var s := Fixed(negative, n, places);
      && DecimalShape(s)
      && Negative(s) == negative
      && WholeDigits(s) == NatToString(LeadingPart(n, places))
      && FractionDigits(s) == LastDigits(n, places)
      && ReadDecimal(s) == Decimal(Signed(negative, n), places)
  {
    var s := Fixed(negative, n, places);
    var w, f := NatToString(LeadingPart(n, places)), LastDigits(n, places);
    DottedParts(negative, w, f, s);
    ShapeSplits(s);
    NatValueConcat(w, f);
    NatToStringValue(LeadingPart(n, places));
    PartsOfNumber(n, places);
  }

  lemma {:induction false} NatValueBound(ds: string)
    requires AllDigits(ds)
    ensures NatValue(ds) < Pow10(|ds|)
  {
    if ds != "" {
      NatValueBound(ds[..|ds| - 1]);
    }
  }

  lemma LastDigitUnique(x: int, c: char, y: int, d: char)
    requires IsDigit(c) && IsDigit(d) && 10 * x + DigitValue(c) == 10 * y + DigitValue(d)
    ensures x == y && c == d
  {
  }

  lemma {:induction false} SameDigits(a: string, b: string)
    requires |a| == |b| && AllDigits(a) && AllDigits(b) && NatValue(a) == NatValue(b)
    ensures a == b
  {
    if a != "" {
      var a', b' := a[..|a| - 1], b[..|b| - 1];
      LastDigitUnique(NatValue(a'), a[|a| - 1], NatValue(b'), b[|b| - 1]);
      SameDigits(a', b');
      assert a == a' + [a[|a| - 1]] && b == b' + [b[|b| - 1]];
    }
  }

  /** Digits without superfluous zeros in front. */
  predicate NoSpareZero(w: string) {
    w != "" && (w[0] == '0' ==> |w| == 1)
  }

  lemma {:induction false} NatToStringCanonical(n: nat)
    ensures NoSpareZero(NatToString(n)) && (n > 0 ==> NatToString(n)[0] != '0')
  {
    if n >= 10 {
      NatToStringCanonical(n / 10);
    }
  }

  lemma {:induction false} CanonicalDigits(w: string)
    requires AllDigits(w) && NoSpareZero(w)
    ensures NatToString(NatValue(w)) == w
    ensures w[0] != '0' ==> NatValue(w) > 0
  {
    if |w| == 1 {
      assert w == [w[0]] && w[..0] == "";
    } else {
      var front, last := w[..|w| - 1], w[|w| - 1];
      CanonicalDigits(front);
      assert NatValue(w) / 10 == NatValue(front) && NatValue(w) % 10 == DigitValue(last);
      assert w == front + [last];
    }
  }

  lemma {:induction false} OneMoreTime(q: int, q': int, p: int)
    requires q > q' && p >= 0
    ensures q * p >= q' * p + p
    decreases q - q'
  {
    assert q * p == (q - 1) * p + p;
    if q - 1 > q' {
      OneMoreTime(q - 1, q', p);
    }
  }

  lemma EuclidUnique(q: int, r: int, q': int, r': int, p: int)
    requires q * p + r == q' * p + r' && 0 <= r < p && 0 <= r' < p
    ensures q == q' && r == r'
  {
    if q > q' {
      OneMoreTime(q, q', p);
    } else if q < q' {
      OneMoreTime(q', q, p);
    }
  }

  lemma SignJoins(w: string, f: string)
    ensures "-" + (w + "." + f) == "-" + w + "." + f
    ensures w + "." + f == "" + w + "." + f
  {
    assert "" + w == w;
  }

  lemma DottedText(s: string)
    requires DecimalShape(s) && '.' in s
    ensures s == (if Negative(s) then "-" else "") + WholeDigits(s) + "." + FractionDigits(s)
  {
    var b := Unsigned(s);
    var k := IndexOf(b, '.');
    DotInUnsigned(s);
    assert b == WholeDigits(s) + "." + FractionDigits(s) by {
      assert b == b[..k] + [b[k]] + b[k + 1..];
    }
    SignJoins(WholeDigits(s), FractionDigits(s));
    if Negative(s) {
      assert s == "-" + b;
    }
  }

  /** The digits before and after the dot are those of the number. */
  lemma DigitsOfNumber(w: string, f: string, n: nat)
    requires AllDigits(w) && NoSpareZero(w) && AllDigits(f)
    requires NatValue(w) * Pow10(|f|) + NatValue(f) == n
    ensures w == NatToString(LeadingPart(n, |f|)) && f == LastDigits(n, |f|)
  {
    PartsOfNumber(n, |f|);
    NatValueBound(f);
    EuclidUnique(NatValue(w), NatValue(f), LeadingPart(n, |f|), NatValue(LastDigits(n, |f|)), Pow10(|f|));
    CanonicalDigits(w);
    SameDigits(f, LastDigits(n, |f|));
  }

  /** `s` writes `n` units of 10^-places, with a sign or without: all the decimals,
      and no more digits before the dot than needed. */
  predicate Writes(s: string, negative: bool, n: nat, places: nat) {
    && DecimalShape(s) && (s[0] == '-') == negative && '.' in s
    && NoSpareZero(WholeDigits(s)) && |FractionDigits(s)| == places
    && ReadDecimal(s) == Decimal(Signed(negative, n), places)
  }

  lemma FixedWrites(negative: bool, n: nat, places: nat)
    ensures Writes(Fixed(negative, n, places), negative, n, places)
  {
    FixedReads(negative, n, places);
    NatToStringCanonical(LeadingPart(n, places));
    var sign, w := if negative then "-" else "", NatToString(LeadingPart(n, places));
    assert Fixed(negative, n, places)[|sign + w|] == '.';
  }

  /** There is exactly one such text, the rendered one. */
  lemma FixedIsOnlyText(s: string, negative: bool, n: nat, places: nat)
    ensures s == Fixed(negative, n, places) <==> Writes(s, negative, n, places)
  {
    FixedWrites(negative, n, places);
    if Writes(s, negative, n, places) {
      ShapeSplits(s);
      DottedText(s);
      NatValueConcat(WholeDigits(s), FractionDigits(s));
      DigitsOfNumber(WholeDigits(s), FractionDigits(s), n);
    }
  }

  /** Different numbers, or a different sign, render differently. */
  lemma FixedIsInjective(negative: bool, n: nat, negative': bool, n': nat, places: nat)
    requires Fixed(negative, n, places) == Fixed(negative', n', places)
    ensures negative == negative' && n == n'
  {
    FixedReads(negative, n, places);
    FixedReads(negative', n', places);
  }
}
