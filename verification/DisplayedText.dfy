/** What FmtAmount shows, read off the text itself: how many decimals, where the commas
    stand, and what becomes of a fraction of zeros (format.go). */
module DisplayedText {
  import opened Wrappers
  import opened Texts
  import opened Decimals
  import opened Rationals
  import opened Amounts
  import opened Rounding
  import opened Formatting

  /** The text before the dot, if there is one. */
  function Head(t: string): string {
    t[..IndexOf(t, '.')]
  }

  /** The dot and what follows it. */
  function Tail(t: string): string {
    t[IndexOf(t, '.')..]
  }

  /** Digits and commas in groups of three: the first comma stands before the last
      three digits. */
  predicate Grouped(g: string) {
    forall i :: 0 <= i < |g| ==> if (|g| - i) % 4 == 0 then g[i] == ',' else '0' <= g[i] <= '9'
  }

  /** A whole part as it is shown: an optional minus sign; digits with a comma at every
      fourth place from the right and nowhere else; a digit in front, and a zero there
      only on its own. */
  predicate IsGrouped(head: string) {
    var g := if head != "" && head[0] == '-' then head[1..] else head;
    && g != "" && '0' <= g[0] <= '9'
    && Grouped(g)
    && (g[0] == '0' ==> |g| == 1)
  }

  lemma FourthPlace(n: nat, i: nat)
    requires i < n
    ensures (n - i) % 4 == 0 <==> (n - 1 - i) % 4 == 3
  {
  }

  lemma {:induction false} GroupedAlphabet(ds: string)
    requires AllDigits(ds)
    ensures forall i :: 0 <= i < |GroupDigits(ds)| ==> IsDigit(GroupDigits(ds)[i]) || GroupDigits(ds)[i] == ','
  {
    if |ds| > 3 {
      GroupedAlphabet(ds[..|ds| - 3]);
    }
  }

  lemma GroupedDigits(ds: string, i: nat)
    requires AllDigits(ds) && i < |GroupDigits(ds)|
    ensures if (|GroupDigits(ds)| - i) % 4 == 0 then GroupDigits(ds)[i] == ',' else IsDigit(GroupDigits(ds)[i])
  {
    GroupPositions(ds);
    FourthPlace(|GroupDigits(ds)|, i);
    GroupedAlphabet(ds);
    assert !IsDigit(',');
  }

  lemma {:induction false} GroupedStart(ds: string)
    requires AllDigits(ds) && ds != ""
    ensures GroupDigits(ds) != "" && GroupDigits(ds)[0] == ds[0]
    ensures |GroupDigits(ds)| == 1 <==> |ds| == 1
    ensures |GroupDigits(ds)| > 3 <==> |ds| > 3
  {
    if |ds| > 3 {
      GroupedStart(ds[..|ds| - 3]);
    }
  }

  lemma GroupIsGrouped(sign: string, w: string, head: string)
    requires AllDigits(w) && NoSpareZero(w) && (sign == "" || sign == "-") && head == sign + GroupDigits(w)
    ensures IsGrouped(head) && '.' !in head
    ensures (if head[0] == '-' then head[1..] else head) == GroupDigits(w)
  {
    var g := GroupDigits(w);
    GroupedStart(w);
    if sign == "-" {
      assert head[1..] == g;
    } else {
      assert head == g;
    }
    forall i | 0 <= i < |g| ensures if (|g| - i) % 4 == 0 then g[i] == ',' else '0' <= g[i] <= '9' {
      GroupedDigits(w, i);
    }
    GroupedAlphabet(w);
    forall k | 0 <= k < |head| ensures head[k] != '.' {
      if k >= |sign| {
        assert head[k] == g[k - |sign|];
      }
    }
  }

  lemma ShownParts(head: string, hasComma: bool, fraction: string)
    requires '.' !in head
    ensures Head(Show(head, hasComma, fraction)) == head
    ensures Tail(Show(head, hasComma, fraction)) ==
      if fraction != "0000000" then "." + fraction else if hasComma then ".00" else ""
  {
    var tail := if fraction != "0000000" then "." + fraction else if hasComma then ".00" else "";
    assert Show(head, hasComma, fraction) == head + tail by {
      assert head + "" == head;
      assert head + "." + fraction == head + ("." + fraction);
    }
    IndexOfUnique(head + tail, '.', |head|);
    assert (head + tail)[..|head|] == head && (head + tail)[|head|..] == tail;
  }

  lemma DisplayParts(negative: bool, n: nat, places: nat)
    ensures var t, w := Display(negative, n, places), NatToString(LeadingPart(n, places));
      && IsGrouped(Head(t)) && (Head(t)[0] == '-') == negative
      && (|Head(t)| > (if negative then 4 else 3) <==> |w| > 3)
      && Tail(t) == if LastDigits(n, places) != "0000000" then "." + LastDigits(n, places) else if |w| > 3 then ".00" else ""
  {
    var sign, w := if negative then "-" else "", NatToString(LeadingPart(n, places));
    NatToStringCanonical(LeadingPart(n, places));
    GroupIsGrouped(sign, w, sign + GroupDigits(w));
    GroupedStart(w);
    ShownParts(sign + GroupDigits(w), |w| > 3, LastDigits(n, places));
  }

  lemma ZeroDigits(ds: string)
    requires |ds| == 7 && AllDigits(ds)
    ensures ds == "0000000" <==> NatValue(ds) == 0
  {
    assert Zeros(7) == "0000000";
    NatValueZeros(7);
    if NatValue(ds) == 0 {
      SameDigits(ds, "0000000");
    }
  }

  lemma FractionIsZero(n: nat)
    ensures LastDigits(n, 7) == "0000000" <==> n % 10_000_000 == 0
  {
    PartsOfNumber(n, 7);
    SevenPlaces();
    ZeroDigits(LastDigits(n, 7));
  }

  /** With two places the shown text is a grouped whole part, a dot and two digits. */
  lemma TwoPlacesShown(negative: bool, n: nat)
    ensures var t := Display(negative, n, 2);
      && IsGrouped(Head(t)) && (Head(t)[0] == '-') == negative
      && |Tail(t)| == 3 && Tail(t)[0] == '.' && AllDigits(Tail(t)[1..])
  {
    DisplayParts(negative, n, 2);
    assert ("." + LastDigits(n, 2))[1..] == LastDigits(n, 2);
  }

  lemma CommaBeforeThree(g: string)
    requires Grouped(g)
    ensures ',' in g <==> |g| > 3
  {
    if |g| > 3 {
      assert g[|g| - 4] == ',';
    } else {
      forall i | 0 <= i < |g| ensures g[i] != ',' {
        assert (|g| - i) % 4 != 0;
      }
    }
  }

  lemma CommaInGroups(head: string)
    requires IsGrouped(head)
    ensures ',' in head <==> |head| > if head[0] == '-' then 4 else 3
  {
    if head[0] == '-' {
      CommaBeforeThree(head[1..]);
      assert head == "-" + head[1..];
    } else {
      CommaBeforeThree(head);
    }
  }

  /** With seven places it is a grouped whole part, a dot and seven digits, unless all
      of these are zeros: then it ends in ".00" behind a comma, and else without dot. */
  lemma SevenPlacesShown(negative: bool, n: nat)
    ensures var t := Display(negative, n, 7);
      && IsGrouped(Head(t)) && (Head(t)[0] == '-') == negative
      && if n % 10_000_000 != 0 then |Tail(t)| == 8 && Tail(t)[0] == '.' && AllDigits(Tail(t)[1..])
         else Tail(t) == if ',' in Head(t) then ".00" else ""
  {
    DisplayParts(negative, n, 7);
    FractionIsZero(n);
    CommaInGroups(Head(Display(negative, n, 7)));
    if n % 10_000_000 != 0 {
      assert ("." + LastDigits(n, 7))[1..] == LastDigits(n, 7);
    }
  }

  // -------------------------------------------------------------- FmtAmount

  /** `shown` is `z` units of 10^-2, written with two decimals. */
  predicate ShowsHundredths(shown: string, z: int) {
    && IsGrouped(Head(shown)) && (shown[0] == '-') == (z < 0)
    && |Tail(shown)| == 3 && Tail(shown)[0] == '.' && AllDigits(Tail(shown)[1..])
    && Denotes(Without(shown, ','), Decimal(z, 2))
  }

  /** `shown` is `z` units of 10^-7, written with seven decimals, or without them when
      they are zeros; behind a comma two zeros stay. */
  predicate ShowsUnits(shown: string, z: int) {
    && IsGrouped(Head(shown)) && (shown[0] == '-') == (z < 0)
    && (if z % 10_000_000 != 0 then |Tail(shown)| == 8 && Tail(shown)[0] == '.' && AllDigits(Tail(shown)[1..])
        else Tail(shown) == if ',' in Head(shown) then ".00" else "")
    && Denotes(Without(shown, ','), Decimal(z, 7))
  }

  lemma SignIsFirst(t: string)
    requires IsGrouped(Head(t))
    ensures t != "" && Head(t)[0] == t[0]
  {
  }

  lemma NegativeRemainder(z: int)
    ensures z % 10_000_000 == 0 <==> AbsInt(z) % 10_000_000 == 0
  {
  }

  lemma DisplayDenotes(z: int, places: nat)
    ensures Denotes(Without(Display(z < 0, AbsInt(z), places), ','), Decimal(z, places))
  {
    DisplayWithoutCommas(z < 0, AbsInt(z), places);
    PlainTextReads(z < 0, AbsInt(z), places);
    assert Signed(z < 0, AbsInt(z)) == z;
  }

  lemma HundredthsShown(z: int)
    ensures ShowsHundredths(Display(z < 0, AbsInt(z), 2), z)
  {
    TwoPlacesShown(z < 0, AbsInt(z));
    SignIsFirst(Display(z < 0, AbsInt(z), 2));
    DisplayDenotes(z, 2);
  }

  lemma UnitsShown(z: int)
    ensures ShowsUnits(Display(z < 0, AbsInt(z), 7), z)
  {
    SevenPlacesShown(z < 0, AbsInt(z));
    SignIsFirst(Display(z < 0, AbsInt(z), 7));
    NegativeRemainder(z);
    DisplayDenotes(z, 7);
  }

  lemma FormattedUnits(amount: string, precisionTwo: bool, rounding: FmtRoundingBehavior, z: int, k: nat)
    requires Format(amount, precisionTwo, rounding).Success? && DecimalShape(amount)
    requires k == (if precisionTwo then 2 else 7)
    requires if rounding == 1 then NearestUnits(z, ReadDecimal(amount), k) else TruncatedUnits(z, ReadDecimal(amount), k)
    ensures Format(amount, precisionTwo, rounding) == Success(Display(z < 0, AbsInt(z), k))
  {
    var d := ParseAmountIntoDecimal(amount).value;
    DecimalReadsValue(amount);
    UnitsAreRounded(d, k, rounding);
    RoundingIsUnique(Units(d, k, rounding), d, z, ReadDecimal(amount), k, rounding);
  }

  /** With the precision of two, an amount is shown rounded to the nearest hundredth,
      ties away from zero, or cut off to one, always with two decimals. */
  lemma ShownWithTwoPlaces(amount: string, rounding: FmtRoundingBehavior, z: int)
    requires Format(amount, true, rounding).Success? && DecimalShape(amount)
    requires if rounding == 1 then NearestUnits(z, ReadDecimal(amount), 2) else TruncatedUnits(z, ReadDecimal(amount), 2)
    ensures ShowsHundredths(Format(amount, true, rounding).value, z)
  {
    FormattedUnits(amount, true, rounding, z, 2);
    HundredthsShown(z);
  }

  /** Otherwise it is rounded or cut off to 10^-7. */
  lemma ShownWithSevenPlaces(amount: string, rounding: FmtRoundingBehavior, z: int)
    requires Format(amount, false, rounding).Success? && DecimalShape(amount)
    requires if rounding == 1 then NearestUnits(z, ReadDecimal(amount), 7) else TruncatedUnits(z, ReadDecimal(amount), 7)
    ensures ShowsUnits(Format(amount, false, rounding).value, z)
  {
    FormattedUnits(amount, false, rounding, z, 7);
    UnitsShown(z);
  }

  /** Some number always meets the requirement of the last two lemmas. */
  lemma SomethingIsShown(amount: string, rounding: FmtRoundingBehavior, k: nat) returns (z: int)
    requires DecimalShape(amount)
    ensures if rounding == 1 then NearestUnits(z, ReadDecimal(amount), k) else TruncatedUnits(z, ReadDecimal(amount), k)
  {
    z := Units(ReadDecimal(amount), k, rounding);
    UnitsAreRounded(ReadDecimal(amount), k, rounding);
  }

  /** The two ways to fail: nothing to show, and nothing that can be read. */
  lemma FormatErrors(amount: string, precisionTwo: bool, rounding: FmtRoundingBehavior)
    ensures Format(amount, precisionTwo, rounding) == Failure(EmptyAmount) <==> amount == ""
    ensures Format(amount, precisionTwo, rounding) == Failure(UnableToParse) <==>
      amount != "" && Format(amount, precisionTwo, rounding).Failure?
  {
  }
}
