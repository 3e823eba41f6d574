/** FmtAmount (format.go): rounding or truncating an amount, grouping its digits by
    thousands with a backwards loop and an in-place reversal, and shortening a
    fraction of seven zeros. */
module Formatting {
  import opened Wrappers
  import opened Texts
  import opened Decimals
  import opened Rationals
  import opened Amounts
  import opened Rounding

  type FmtRoundingBehavior = int
  const ROUND: FmtRoundingBehavior := 1

  datatype FormatError = EmptyAmount | UnableToParse

  function Dotted(n: nat, places: nat): string
    requires places >= 1
  {
    var ds := NatToString(n);
    if |ds| > places then ds[..|ds| - places] + "." + ds[|ds| - places..]
    else "0" + "." + (Zeros(places - |ds|) + ds)
  }

  /** The library's rendering of a decimal with at least one place: the digits of
      the coefficient with a dot put in, or zeros put in front. */
  function DecimalText(d: Decimal): string
    requires d.places >= 1
  {
    var number := Dotted(AbsInt(d.coefficient), d.places);
    if d.coefficient < 0 then "-" + number else number
  }

  lemma SignPutInFront(w: string, f: string)
    ensures "-" + (w + "." + f) == "-" + w + "." + f
    ensures "" + w + "." + f == w + "." + f
  {
    assert "" + w == w;
  }

  lemma DotPutIn(n: nat, k: nat)
    requires k >= 1
    ensures Dotted(n, k) == NatToString(LeadingPart(n, k)) + "." + LastDigits(n, k)
  {
    DigitsAroundDot(n, k);
    assert NatToString(0) == "0";
  }

  lemma DecimalTextIsFixed(d: Decimal)
    requires d.places >= 1
    ensures DecimalText(d) == Fixed(d.coefficient < 0, AbsInt(d.coefficient), d.places)
  {
    var n, k := AbsInt(d.coefficient), d.places;
    DotPutIn(n, k);
    SignPutInFront(NatToString(LeadingPart(n, k)), LastDigits(n, k));
  }

  /** The rounded number as a whole number of 10^-places. */
  function Units(d: Decimal, places: nat, rounding: FmtRoundingBehavior): int {
    if rounding == ROUND then RoundTo(d, places).coefficient else Rescale(d, places).coefficient
  }

  lemma DropLastZero(negative: bool, n: nat, places: nat)
    ensures Fixed(negative, 10 * n, places + 1) == Fixed(negative, n, places) + "0"
  {
  }

  lemma TenfoldUnits(d: Decimal, places: nat)
    ensures RoundTo(TruncateTo(d, places), places + 1) == Decimal(10 * Rescale(d, places).coefficient, places + 1)
  {
    var e := TruncateTo(d, places);
    var z := Rescale(d, places).coefficient;
    var p := Pow10(places - e.places);
    assert Pow10(places + 2 - e.places) == 10 * Pow10(places + 1 - e.places) == 100 * p;
    assert e.coefficient * p == z;
    assert e.coefficient * (100 * p) == 100 * (e.coefficient * p);
    assert Rescale(e, places + 2).coefficient == 100 * z;
  }

  /** Truncation prints one place too many, always a zero, and drops it again. */
  lemma TruncatedText(d: Decimal, places: nat)
    ensures var t := DecimalText(RoundTo(TruncateTo(d, places), places + 1));
      var z := Rescale(d, places).coefficient;
      |t| >= 1 && t[..|t| - 1] == Fixed(z < 0, AbsInt(z), places)
  {
    var z := Rescale(d, places).coefficient;
    TenfoldUnits(d, places);
    var e := Decimal(10 * z, places + 1);
    DecimalTextIsFixed(e);
    DropLastZero(z < 0, AbsInt(z), places);
    assert AbsInt(e.coefficient) == 10 * AbsInt(z);
  }

  // ------------------------------------------------------ groups of thousands

  /** Commas between groups of three digits, counted from the right. */
  function GroupDigits(ds: string): string {
    if |ds| <= 3 then ds else GroupDigits(ds[..|ds| - 3]) + "," + ds[|ds| - 3..]
  }

  function GroupWhole(head: string): string {
    if Negative(head) then "-" + GroupDigits(head[1..]) else GroupDigits(head)
  }

  lemma GroupAppend(front: string, back: string)
    requires front != "" && |back| == 3
    ensures GroupDigits(front + back) == GroupDigits(front) + "," + back
  {
  }

  lemma CommaAssociates(a: string, g: string, b: string)
    ensures (a + "," + g) + "," + b == a + "," + (g + "," + b)
    ensures (a + g) + "," + b == a + (g + "," + b)
  {
  }

  /** Adding a digit on the left adds a comma exactly after full groups. */
  lemma {:induction false} GroupPrepend(c: char, ds: string)
    ensures GroupDigits([c] + ds) ==
      if |ds| > 0 && |ds| % 3 == 0 then [c] + "," + GroupDigits(ds) else [c] + GroupDigits(ds)
  {
    if |ds| > 3 {
      var front, back := ds[..|ds| - 3], ds[|ds| - 3..];
      GroupPrepend(c, front);
      GroupAppend(front, back);
      GroupAppend([c] + front, back);
      assert front + back == ds;
      assert ([c] + front) + back == [c] + ds;
      CommaAssociates([c], GroupDigits(front), back);
    } else if |ds| == 3 {
      GroupAppend([c], ds);
    }
  }

  lemma CommaRemoved(g: string)
    ensures Without(g + ",", ',') == Without(g, ',')
  {
    WithoutConcat(g, ",", ',');
    assert Without(",", ',') == "";
  }

  lemma GroupRemovedStep(g: string, front: string, group: string)
    requires Without(g, ',') == front && AllDigits(group)
    ensures Without(g + "," + group, ',') == front + group
  {
    WithoutNone(group, ',');
    WithoutConcat(g + ",", group, ',');
    CommaRemoved(g);
  }

  /** Deleting the commas gives the digits back. */
  lemma {:induction false} GroupRemoved(ds: string)
    requires AllDigits(ds)
    ensures Without(GroupDigits(ds), ',') == ds
  {
    if |ds| <= 3 {
      WithoutNone(ds, ',');
    } else {
      var front, group := ds[..|ds| - 3], ds[|ds| - 3..];
      GroupRemoved(front);
      GroupRemovedStep(GroupDigits(front), front, group);
      assert front + group == ds;
    }
  }

  /** A comma at every fourth position counted from the right and nowhere else. */
  predicate CommasEveryFourth(g: string) {
    forall i :: 0 <= i < |g| ==> (g[i] == ',' <==> (|g| - 1 - i) % 4 == 3)
  }

  lemma EveryFourthStep(g: string, group: string)
    requires CommasEveryFourth(g) && |group| == 3 && AllDigits(group)
    ensures CommasEveryFourth(g + "," + group)
  {
  }

  /** Grouping puts the commas between groups of three digits counted from the right,
      never at the beginning, and none at all into three digits or fewer. */
  lemma {:induction false} GroupPositions(ds: string)
    requires AllDigits(ds)
    ensures CommasEveryFourth(GroupDigits(ds))
    ensures ds != "" ==> IsDigit(GroupDigits(ds)[0])
    ensures ',' in GroupDigits(ds) <==> |ds| > 3
  {
    if |ds| > 3 {
      var front, group := ds[..|ds| - 3], ds[|ds| - 3..];
      GroupPositions(front);
      EveryFourthStep(GroupDigits(front), group);
      assert (GroupDigits(front) + "," + group)[|GroupDigits(front)|] == ',';
    }
  }

  // ----------------------------------------------------------- the whole text

  /** The branch that shortens a fraction of seven zeros. */
  function Show(head: string, hasComma: bool, fraction: string): string {
    if fraction == "0000000" then (if hasComma then head + ".00" else head)
    else head + "." + fraction
  }

  /** What is shown for `n` units of 10^-places. */
  function Display(negative: bool, n: nat, places: nat): string {
    Show((if negative then "-" else "") + GroupDigits(NatToString(LeadingPart(n, places))),
      |NatToString(LeadingPart(n, places))| > 3, LastDigits(n, places))
  }

  function Places(precisionTwo: bool): nat {
    if precisionTwo then 2 else 7
  }

  function Format(amount: string, precisionTwo: bool, rounding: FmtRoundingBehavior): Result<string, FormatError> {
    if amount == "" then Failure(EmptyAmount)
    else
      var x := ParseAmountIntoDecimal(amount);
      if x.Failure? then Failure(UnableToParse)
      else
        var z := Units(x.value, Places(precisionTwo), rounding);
        Success(Display(z < 0, AbsInt(z), Places(precisionTwo)))
  }

  /** The in-place swap of format.go. */
  method Reverse(s: string) returns (r: string)
    ensures r == Reversed(s)
  {
    var a := new char[|s|](i requires 0 <= i < |s| => s[i]);
    var i, j := 0, |s| - 1;
    while i < a.Length / 2
      invariant 0 <= i <= a.Length / 2 && j == |s| - 1 - i
      invariant forall k :: 0 <= k < i ==> a[k] == s[|s| - 1 - k] && a[|s| - 1 - k] == s[k]
      invariant forall k :: i <= k < |s| - i ==> a[k] == s[k]
    {
      a[i], a[j] := a[j], a[i];
      i, j := i + 1, j - 1;
    }
    r := a[..];
    assert r == Reversed(s);
  }

  /** The buffer holds the grouped digits backwards. */
  predicate Written(done: string, b: string) {
    b == Reversed(GroupDigits(done))
  }

  /** The loop's counters after `n` digits. */
  predicate Counted(n: int, sinceComma: int, hasComma: bool) {
    sinceComma == (if n == 0 then 0 else (n - 1) % 3 + 1) && hasComma == (n > 3)
  }

  /** One turn of the comma loop on a digit. */
  lemma CommaStep(c: char, done: string, b: string)
    requires Written(done, b)
    ensures Written([c] + done, (if |done| > 0 && |done| % 3 == 0 then b + "," else b) + [c])
  {
    GroupPrepend(c, done);
    var g := GroupDigits(done);
    if |done| > 0 && |done| % 3 == 0 {
      ReversedCons(',', g);
      ReversedCons(c, "," + g);
      assert [c] + "," + g == [c] + ("," + g);
    } else {
      ReversedCons(c, g);
    }
  }

  lemma CountStep(n: nat, sinceComma: int, hasComma: bool)
    requires Counted(n, sinceComma, hasComma)
    ensures (sinceComma == 3) == (n > 0 && n % 3 == 0)
    ensures if sinceComma == 3 then Counted(n + 1, 1, true) else Counted(n + 1, sinceComma + 1, hasComma)
  {
  }

  /** The loop's invariant: the bytes after position `i` have been written. */
  predicate LoopState(head: string, i: int, b: string, sinceComma: int, hasComma: bool) {
    && -1 <= i < |head|
    && if i == -1 && Negative(head) then b == Reversed(GroupWhole(head)) && hasComma == (|Unsigned(head)| > 3)
       else Written(head[i + 1..], b) && Counted(|head| - 1 - i, sinceComma, hasComma)
  }

  lemma WrittenSign(head: string, b: string)
    requires Negative(head) && Written(head[1..], b)
    ensures b + [head[0]] == Reversed(GroupWhole(head))
  {
    ReversedCons('-', GroupDigits(head[1..]));
  }

  lemma WrittenDigit(head: string, i: nat, b: string, sinceComma: int, hasComma: bool)
    requires i < |head| && Written(head[i + 1..], b) && Counted(|head| - 1 - i, sinceComma, hasComma)
    ensures Written(head[i..], (if sinceComma == 3 then b + "," else b) + [head[i]])
    ensures if sinceComma == 3 then Counted(|head| - i, 1, true) else Counted(|head| - i, sinceComma + 1, hasComma)
  {
    CountStep(|head| - 1 - i, sinceComma, hasComma);
    CommaStep(head[i], head[i + 1..], b);
    assert head[i..] == [head[i]] + head[i + 1..];
  }

  lemma WrittenStep(head: string, i: nat, b: string, sinceComma: int, hasComma: bool)
    requires AllDigits(Unsigned(head)) && i < |head| && LoopState(head, i, b, sinceComma, hasComma)
    ensures if sinceComma == 3 && head[i] != '-' then LoopState(head, i - 1, b + "," + [head[i]], 1, true)
      else LoopState(head, i - 1, b + [head[i]], sinceComma + 1, hasComma)
  {
    if Negative(head) && i == 0 {
      WrittenSign(head, b);
    } else {
      assert IsDigit(Unsigned(head)[if Negative(head) then i - 1 else i]);
      WrittenDigit(head, i, b, sinceComma, hasComma);
    }
  }

  lemma WrittenAll(head: string, b: string, sinceComma: int, hasComma: bool)
    requires LoopState(head, -1, b, sinceComma, hasComma)
    ensures Reversed(b) == GroupWhole(head) && hasComma == (|Unsigned(head)| > 3)
  {
    assert head[0..] == head;
    ReversedTwice(GroupWhole(head));
  }

  /** The comma loop: bytes are written from right to left into a buffer that is
      reversed at the end. */
  method InsertCommas(head: string) returns (grouped: string, hasComma: bool)
    requires head != "" && AllDigits(Unsigned(head))
    ensures grouped == GroupWhole(head)
    ensures hasComma == (|Unsigned(head)| > 3)
  {
    var sinceComma := 0;
    var b := "";
    hasComma := false;
    var i := |head| - 1;
    while i >= 0
      invariant LoopState(head, i, b, sinceComma, hasComma)
    {
      WrittenStep(head, i, b, sinceComma, hasComma);
      if sinceComma == 3 && head[i] != '-' {
        b := b + ",";
        sinceComma := 0;
        hasComma := true;
      }
      b := b + [head[i]];
      sinceComma := sinceComma + 1;
      i := i - 1;
    }
    grouped := Reverse(b);
    WrittenAll(head, b, sinceComma, hasComma);
  }

  /** The text of the rounded amount, before any comma. */
  function RoundedText(x: Decimal, precision: nat, rounding: FmtRoundingBehavior): string
    requires precision >= 1
  {
    if rounding == ROUND then DecimalText(RoundTo(x, precision))
    else
      TruncatedText(x, precision);
      var t := DecimalText(RoundTo(TruncateTo(x, precision), precision + 1));
      t[..|t| - 1]
  }

  lemma RoundedTextIsFixed(x: Decimal, precision: nat, rounding: FmtRoundingBehavior)
    requires precision >= 1
    ensures var z := Units(x, precision, rounding);
      RoundedText(x, precision, rounding) == Fixed(z < 0, AbsInt(z), precision)
  {
    DecimalTextIsFixed(RoundTo(x, precision));
    TruncatedText(x, precision);
  }

  /** A rendered number splits at its only dot into a signed whole and a fraction. */
  lemma FixedSplits(negative: bool, n: nat, places: nat)
    ensures var head := (if negative then "-" else "") + NatToString(LeadingPart(n, places));
      && head != ""
      && Split(Fixed(negative, n, places), '.') == [head, LastDigits(n, places)]
      && Unsigned(head) == NatToString(LeadingPart(n, places))
      && Negative(head) == negative
  {
    var w, f := NatToString(LeadingPart(n, places)), LastDigits(n, places);
    var head := (if negative then "-" else "") + w;
    assert IsDigit(w[0]);
    assert Fixed(negative, n, places) == head + ['.'] + f;
    SplitAtOne(head, f, '.');
  }

  /** Splitting, grouping and joining the rounded text. */
  method InsertAndShorten(s: string, ghost negative: bool, ghost n: nat, ghost places: nat)
    returns (r: Result<string, FormatError>)
    requires s == Fixed(negative, n, places)
    ensures r == Success(Display(negative, n, places))
  {
    FixedSplits(negative, n, places);
    var parts := Split(s, '.');
    if |parts| != 2 {
      return Failure(UnableToParse);
    }
    var hasComma := false;
    var head := parts[0];
    if |head| > 0 {
      var grouped;
      grouped, hasComma := InsertCommas(head);
      parts := [grouped, parts[1]];
    }
    if parts[1] == "0000000" {
      if hasComma {
        parts := [parts[0], "00"];
      } else {
        parts := [parts[0]];
      }
    }
    var text := if |parts| == 2 then parts[0] + "." + parts[1] else parts[0];
    assert text == Show(GroupWhole(head), hasComma, LastDigits(n, places));
    ghost var whole := NatToString(LeadingPart(n, places));
    assert GroupWhole(head) == (if negative then "-" else "") + GroupDigits(whole) by {
      if !negative {
        assert "" + GroupDigits(whole) == GroupDigits(whole);
      }
    }
    return Success(text);
  }

  method FmtAmount(amount: string, precisionTwo: bool, rounding: FmtRoundingBehavior)
    returns (r: Result<string, FormatError>)
    ensures r == Format(amount, precisionTwo, rounding)
  {
    if amount == "" {
      return Failure(EmptyAmount);
    }
    var parsed := ParseAmountIntoDecimal(amount);
    if parsed.Failure? {
      return Failure(UnableToParse);
    }
    var precision := 7;
    if precisionTwo {
      precision := 2;
    }
    var s := RoundedText(parsed.value, precision, rounding);
    ghost var z := Units(parsed.value, precision, rounding);
    RoundedTextIsFixed(parsed.value, precision, rounding);
    r := InsertAndShorten(s, z < 0, AbsInt(z), precision);
  }

  // -------------------------------------------------------------- its meaning

  /** Rounding as the caller asked for it. */
  predicate RoundsTo(z: int, d: Decimal, places: nat, rounding: FmtRoundingBehavior) {
    if rounding == ROUND then NearestUnits(z, d, places) else TruncatedUnits(z, d, places)
  }

  lemma UnitsAreRounded(d: Decimal, places: nat, rounding: FmtRoundingBehavior)
    ensures RoundsTo(Units(d, places, rounding), d, places, rounding)
  {
    RoundToIsNearest(d, places);
    RescaleTruncates(d, places);
  }

  lemma RoundingIsUnique(z: int, d: Decimal, z': int, d': Decimal, places: nat, rounding: FmtRoundingBehavior)
    requires SameValue(d, d') && RoundsTo(z, d, places, rounding) && RoundsTo(z', d', places, rounding)
    ensures z == z'
  {
    if rounding == ROUND {
      NearestIsUnique(z, d, z', d', places);
    } else {
      TruncatedIsUnique(z, d, z', d', places);
    }
  }

  /** The shown text without its commas, by the branch that produced it. */
  function PlainText(negative: bool, n: nat, places: nat): string {
    Show((if negative then "-" else "") + NatToString(LeadingPart(n, places)),
      |NatToString(LeadingPart(n, places))| > 3, LastDigits(n, places))
  }

  lemma DisplayWithoutCommas(negative: bool, n: nat, places: nat)
    ensures Without(Display(negative, n, places), ',') == PlainText(negative, n, places)
  {
    var whole, fraction := NatToString(LeadingPart(n, places)), LastDigits(n, places);
    var sign := if negative then "-" else "";
    var head := sign + GroupDigits(whole);
    GroupRemoved(whole);
    WithoutNone(sign, ',');
    WithoutConcat(sign, GroupDigits(whole), ',');
    WithoutNone(fraction, ',');
    WithoutNone(".00", ',');
    WithoutConcat(head, ".00", ',');
    WithoutConcat(head + ".", fraction, ',');
    WithoutConcat(head, ".", ',');
    WithoutNone(".", ',');
  }

  predicate Denotes(t: string, d: Decimal) {
    DecimalShape(t) && SameValue(ReadDecimal(t), d)
  }

  /** A text the library reads without complaint: digits before the dot, few after. */
  predicate Readable(t: string, places: nat) {
    WholeDigits(t) != "" && |FractionDigits(t)| <= places
  }

  lemma ZeroFraction(n: nat, places: nat)
    requires LastDigits(n, places) == "0000000"
    ensures n == LeadingPart(n, places) * Pow10(places)
  {
    PartsOfNumber(n, places);
    assert "0000000" == Zeros(7);
    NatValueZeros(7);
  }

  lemma SignedTimes(negative: bool, q: int, p: int)
    ensures Signed(negative, q) * p == Signed(negative, q * p)
  {
  }

  lemma ScaledTwice(negative: bool, q: int, p: int)
    ensures Signed(negative, q * 100) * p == Signed(negative, q * p) * Pow10(2)
  {
  }

  function MaxPlaces(places: nat): nat {
    if places < 2 then 2 else places
  }

  lemma HundredFold(q: nat, zeros: string)
    requires zeros == "00"
    ensures AllDigits(NatToString(q) + zeros) && NatValue(NatToString(q) + zeros) == q * 100
  {
    NatValueConcat(NatToString(q), zeros);
    NatToStringValue(q);
    assert zeros == Zeros(2);
    NatValueZeros(2);
    assert Pow10(2) == 100;
  }

  lemma ShortFractionReads(negative: bool, q: nat, zeros: string)
    requires zeros == "00"
    ensures var t := (if negative then "-" else "") + NatToString(q) + ".00";
      && DecimalShape(t) && WholeDigits(t) == NatToString(q) && FractionDigits(t) == "00"
      && ReadDecimal(t) == Decimal(Signed(negative, q * 100), 2)
  {
    var w, sign := NatToString(q), if negative then "-" else "";
    var t := sign + w + ".00";
    assert t == sign + w + "." + zeros by {
      assert "." + zeros == ".00";
      assert sign + w + "." + zeros == (sign + w) + ("." + zeros);
    }
    DottedParts(negative, w, zeros, t);
    ShapeSplits(t);
    HundredFold(q, zeros);
  }

  lemma NoFractionReads(negative: bool, q: nat)
    ensures var t := (if negative then "-" else "") + NatToString(q);
      && DecimalShape(t) && WholeDigits(t) == NatToString(q) && FractionDigits(t) == ""
      && ReadDecimal(t) == Decimal(Signed(negative, q), 0)
  {
    var w := NatToString(q);
    var t := (if negative then "-" else "") + w;
    assert IsDigit(w[0]);
    assert Negative(t) == negative;
    assert Unsigned(t) == w;
    IndexOfUnique(w, '.', |w|);
    assert w[..|w|] == w;
    ShapeSplits(t);
    assert w + "" == w;
    NatToStringValue(q);
  }

  lemma ShortenedReads(negative: bool, q: nat, n: nat, places: nat)
    requires n == q * Pow10(places)
    ensures var whole := NatToString(q);
      var t := Show((if negative then "-" else "") + whole, |whole| > 3, "0000000");
      Denotes(t, Decimal(Signed(negative, n), places)) && Readable(t, MaxPlaces(places))
  {
    if |NatToString(q)| > 3 {
      ShortFractionReads(negative, q, "00");
      ScaledTwice(negative, q, Pow10(places));
    } else {
      NoFractionReads(negative, q);
      SignedTimes(negative, q, Pow10(places));
    }
  }

  /** Without its commas the shown text denotes exactly the rounded number, whether
      or not its fraction was shortened or dropped. */
  lemma PlainTextReads(negative: bool, n: nat, places: nat)
    ensures var t := PlainText(negative, n, places);
      Denotes(t, Decimal(Signed(negative, n), places)) && Readable(t, MaxPlaces(places))
  {
    if LastDigits(n, places) == "0000000" {
      ZeroFraction(n, places);
      ShortenedReads(negative, LeadingPart(n, places), n, places);
    } else {
      FixedReads(negative, n, places);
    }
  }

  /** Formatting fails for exactly the texts the library cannot read. */
  lemma FormatAccepts(amount: string, precisionTwo: bool, rounding: FmtRoundingBehavior)
    ensures Format(amount, precisionTwo, rounding).Success? <==>
      DecimalShape(amount) && !OnlySignedZeros(amount) && |TrimZeros(FractionDigits(amount))| <= 0x8000_0000
  {
    DecimalAccepts(amount);
  }

  lemma DottedZeroParts(s: string)
    requires s == "-.0"
    ensures Negative(s) && Unsigned(s) == ".0" && WholeDigits(s) == "" && FractionDigits(s) == "0"
  {
    var b := ".0";
    assert s[1..] == b;
    IndexOfUnique(b, '.', 0);
    assert b[..0] == "" && b[1..] == "0";
  }

  lemma DottedZero(s: string)
    requires s == "-.0"
    ensures DecimalShape(s) && Unsigned(s) == ".0" && WholeDigits(s) == "" && FractionDigits(s) == "0"
    ensures Negative(s) && ReadDecimal(s) == Decimal(0, 1)
  {
    DottedZeroParts(s);
    ShapeSplits(s);
    assert WholeDigits(s) + FractionDigits(s) == "0";
    assert NatValue("0") == 0;
  }

  /** A zero that is an amount but cannot be displayed. */
  lemma SignedZeroIsRefused(precisionTwo: bool, rounding: FmtRoundingBehavior)
    ensures ParseStellarAmount("-.0") == Success(0)
    ensures Format("-.0", precisionTwo, rounding).Failure?
  {
    var s := "-.0";
    DottedZero(s);
    ParseAccepts(s, 0);
    FormatAccepts(s, precisionTwo, rounding);
  }

  /** The displayed amount: the commas taken out, it is a strict decimal denoting the
      input rounded or truncated at two or seven places. Formatting succeeds for
      every text the library can read. */
  lemma FormatMeansRounding(amount: string, precisionTwo: bool, rounding: FmtRoundingBehavior, z: int)
    requires ParseAmountIntoDecimal(amount).Success? && DecimalShape(amount)
    requires RoundsTo(z, ReadDecimal(amount), if precisionTwo then 2 else 7, rounding)
    ensures Format(amount, precisionTwo, rounding).Success?
    ensures Denotes(Without(Format(amount, precisionTwo, rounding).value, ','), Decimal(z, if precisionTwo then 2 else 7))
  {
    var d, k := ParseAmountIntoDecimal(amount).value, Places(precisionTwo);
    var u := Units(d, k, rounding);
    assert u == z by {
      DecimalReadsValue(amount);
      UnitsAreRounded(d, k, rounding);
      RoundingIsUnique(u, d, z, ReadDecimal(amount), k, rounding);
    }
    assert Format(amount, precisionTwo, rounding) == Success(Display(u < 0, AbsInt(u), k));
    DisplayWithoutCommas(u < 0, AbsInt(u), k);
    PlainTextReads(u < 0, AbsInt(u), k);
    assert Signed(u < 0, AbsInt(u)) == z;
  }

  lemma PlainValue(t: string, z: int, k: nat)
    requires DecimalShape(t) && ParseAmountIntoDecimal(t).Success? && SameValue(ReadDecimal(t), Decimal(z, k))
    ensures SameValue(ParseAmountIntoDecimal(t).value, Decimal(z, k))
  {
    DecimalReadsValue(t);
    SameValueTransitive(ParseAmountIntoDecimal(t).value, ReadDecimal(t), Decimal(z, k));
  }

  /** The display of a number, without its commas, is read as that number. */
  lemma PlainTextParses(z: int, k: nat, t: string)
    requires (k == 2 || k == 7) && t == PlainText(z < 0, AbsInt(z), k)
    ensures t != "" && ParseAmountIntoDecimal(t).Success?
    ensures SameValue(ParseAmountIntoDecimal(t).value, Decimal(z, k))
  {
    PlainTextReads(z < 0, AbsInt(z), k);
    DecimalAccepts(t);
    PlainValue(t, z, k);
  }

  lemma SameUnits(d: Decimal, z: int, k: nat, rounding: FmtRoundingBehavior)
    requires SameValue(d, Decimal(z, k))
    ensures Units(d, k, rounding) == z
  {
    UnitsAreRounded(d, k, rounding);
    ExactUnits(z, k);
    RoundingIsUnique(Units(d, k, rounding), d, z, Decimal(z, k), k, rounding);
  }

  /** Formatting the displayed amount again, without its commas, changes nothing. */
  lemma FormatIsIdempotent(amount: string, precisionTwo: bool, rounding: FmtRoundingBehavior)
    requires Format(amount, precisionTwo, rounding).Success?
    ensures var shown := Format(amount, precisionTwo, rounding);
      Format(Without(shown.value, ','), precisionTwo, rounding) == shown
  {
    var k := Places(precisionTwo);
    var z := Units(ParseAmountIntoDecimal(amount).value, k, rounding);
    var t := PlainText(z < 0, AbsInt(z), k);
    DisplayWithoutCommas(z < 0, AbsInt(z), k);
    PlainTextParses(z, k, t);
    SameUnits(ParseAmountIntoDecimal(t).value, z, k, rounding);
    assert t != "";
  }
}
