/** Stellar amounts (amounts.go): parsing, printing and the 105% ceiling used for
    path payments. An amount is an int64 count of stroops, 10^-7 of a unit. */
module Amounts {
  import opened Wrappers
  import opened Texts
  import opened Decimals
  import opened Rationals

  const MAX_INT64: int := 0x7fff_ffff_ffff_ffff
  const MIN_INT64: int := -0x8000_0000_0000_0000
  const STROOPS_PER_LUMEN: int := 10_000_000

  predicate IsInt64(v: int) {
    MIN_INT64 <= v <= MAX_INT64
  }

  /** Two's complement wrap-around of a 64-bit result. */
  function Wrap64(x: int): (r: int)
    ensures IsInt64(r)
  {
    (x + 0x8000_0000_0000_0000) % 0x1_0000_0000_0000_0000 - 0x8000_0000_0000_0000
  }

  /** Go's integer division by a positive divisor, which truncates toward zero. */
  function TruncDiv(a: int, b: int): int
    requires b > 0
  {
    if a < 0 then -((-a) / b) else a / b
  }

  datatype AmountError =
    | EmptyString
    | NotDecimal
    | InvalidFormat
    | CannotParse
    | TooManyDigits
    | OutOfInt64
    | ZeroRate
    | NegativeRate
    | NegativeFactor

  function ValidateNumericalString(s: string): Result<bool, AmountError> {
    if s == "" then Failure(EmptyString)
    else if !MatchesDecimalStrict(s) then Failure(NotDecimal)
    else Success(true)
  }

  /** `^-?[.0-9]{1,20}$` */
  predicate ValidAmountSimple(s: string) {
    var b := Unsigned(s);
    1 <= |b| <= 20 && forall i :: 0 <= i < |b| ==> IsDigit(b[i]) || b[i] == '.'
  }

  /** The library parser behind every amount. Of the texts that pass the first
      test, math/big reads exactly those with one dot at most and some digit. */
  function ParseInt64(s: string): Result<int, AmountError> {
    if !ValidAmountSimple(s) then Failure(InvalidFormat)
    else if !DecimalShape(s) then Failure(CannotParse)
    else
      var d := ReadDecimal(s);
      var scaled := d.coefficient * STROOPS_PER_LUMEN;
      if scaled % Pow10(d.places) != 0 then Failure(TooManyDigits)
      else
        var v := scaled / Pow10(d.places);
        if IsInt64(v) then Success(v) else Failure(OutOfInt64)
  }

  function ParseStellarAmount(s: string): Result<int, AmountError> {
    var _ :- ValidateNumericalString(s);
    ParseInt64(s)
  }

  function StringFromStellarAmount(v: int): string {
    FloatString7(v as real / UNITS)
  }

  lemma NonzeroMultiple(k: int, p: int)
    requires p >= 1
    ensures k >= 1 ==> k * p >= p
    ensures k <= -1 ==> k * p <= -p
  {
  }

  lemma MultipleDivides(v: int, p: int)
    requires p >= 1
    ensures (v * p) % p == 0 && (v * p) / p == v
  {
    var q, r := (v * p) / p, (v * p) % p;
    assert v * p == q * p + r;
    assert (v - q) * p == r;
    NonzeroMultiple(v - q, p);
  }

  lemma ExactQuotient(x: int, p: int, v: int)
    requires p >= 1
    ensures x % p == 0 && x / p == v <==> x == v * p
  {
    if x == v * p {
      MultipleDivides(v, p);
    }
  }

  /** An amount is accepted exactly when its text has the strict decimal shape, is
      at most twenty characters long without its sign, and denotes a whole
      int64 number of stroops; the result is that number. */
  lemma ParseAccepts(s: string, v: int)
    ensures ParseStellarAmount(s) == Success(v) <==>
      && DecimalShape(s)
      && |Unsigned(s)| <= 20
      && IsInt64(v)
      && SameValue(ReadDecimal(s), Decimal(v, AMOUNT_DIGITS))
  {
    StrictExpressionIsShape(s);
    SevenPlaces();
    if DecimalShape(s) && |Unsigned(s)| <= 20 {
      var d := ReadDecimal(s);
      ExactQuotient(d.coefficient * STROOPS_PER_LUMEN, Pow10(d.places), v);
    }
  }

  /** The text denotes `v` stroops. */
  predicate IsWorth(s: string, v: int) {
    DecimalShape(s) && SameValue(ReadDecimal(s), Decimal(v, 7))
  }

  lemma WholeStroops(s: string)
    requires DecimalShape(s)
    ensures var scaled, p := ReadDecimal(s).coefficient * STROOPS_PER_LUMEN, Pow10(ReadDecimal(s).places);
      forall v :: IsWorth(s, v) <==> scaled % p == 0 && v == scaled / p
  {
    SevenPlaces();
    var d := ReadDecimal(s);
    forall v ensures IsWorth(s, v) <==> d.coefficient * STROOPS_PER_LUMEN == v * Pow10(d.places) {
    }
    forall v ensures d.coefficient * STROOPS_PER_LUMEN == v * Pow10(d.places) <==>
      (d.coefficient * STROOPS_PER_LUMEN) % Pow10(d.places) == 0 && v == (d.coefficient * STROOPS_PER_LUMEN) / Pow10(d.places)
    {
      ExactQuotient(d.coefficient * STROOPS_PER_LUMEN, Pow10(d.places), v);
    }
  }

  /** Every text that is no amount is refused for one reason: it is empty, no strict
      decimal, too long, no whole number of stroops, or beyond 64 bits. */
  lemma RefusalsAreNamed(s: string)
    ensures ParseStellarAmount(s) == Failure(EmptyString) <==> s == ""
    ensures ParseStellarAmount(s) == Failure(NotDecimal) <==> s != "" && !DecimalShape(s)
    ensures ParseStellarAmount(s) == Failure(InvalidFormat) <==> DecimalShape(s) && |Unsigned(s)| > 20
    ensures ParseStellarAmount(s) == Failure(TooManyDigits) <==>
      DecimalShape(s) && |Unsigned(s)| <= 20 && forall v :: !IsWorth(s, v)
    ensures ParseStellarAmount(s) == Failure(OutOfInt64) <==>
      DecimalShape(s) && |Unsigned(s)| <= 20 && exists v :: IsWorth(s, v) && !(-0x8000_0000_0000_0000 <= v < 0x8000_0000_0000_0000)
  {
    StrictExpressionIsShape(s);
    if DecimalShape(s) {
      WholeStroops(s);
      var scaled, p := ReadDecimal(s).coefficient * STROOPS_PER_LUMEN, Pow10(ReadDecimal(s).places);
      assert scaled % p == 0 ==> IsWorth(s, scaled / p);
    }
  }

  /** The text of an int64 amount: what the library parser accepts. */
  predicate IsAmountText(s: string) {
    && DecimalShape(s) && |Unsigned(s)| <= 20
    && (var scaled, p := ReadDecimal(s).coefficient * STROOPS_PER_LUMEN, Pow10(ReadDecimal(s).places);
        scaled % p == 0 && IsInt64(scaled / p))
  }

  lemma ParsesExactly(s: string)
    ensures ParseInt64(s).Success? <==> IsAmountText(s)
  {
  }

  /** The first check of ParseStellarAmount never changes which texts are accepted. */
  lemma StrictCheckIsRedundant(s: string, v: int)
    ensures ParseStellarAmount(s) == Success(v) <==> ParseInt64(s) == Success(v)
  {
    StrictExpressionIsShape(s);
  }

  /** The twenty-character limit is real: zero written with twenty-one digits is a
      strict decimal that denotes an int64 number of stroops, and is refused. */
  lemma LongZeroIsRefused()
    ensures var s := Zeros(21);
      && DecimalShape(s)
      && SameValue(ReadDecimal(s), Decimal(0, AMOUNT_DIGITS))
      && ParseStellarAmount(s) == Failure(InvalidFormat)
  {
    var s := Zeros(21);
    assert IsDigit(s[0]);
    assert Unsigned(s) == s;
    IndexOfUnique(s, '.', 21);
    assert WholeDigits(s) + FractionDigits(s) == s;
    NatValueZeros(21);
    ShapeSplits(s);
    StrictExpressionIsShape(s);
  }

  // --------------------------------------------------------------- printing

  lemma StroopsOf(x: real, v: int)
    requires x == v as real / UNITS
    ensures RoundHalfAway(x * UNITS) == v && (x < 0.0 <==> v < 0)
  {
    assert x * UNITS == v as real;
    RoundOfInt(v);
  }

  lemma AmountText(v: int)
    ensures StringFromStellarAmount(v) == Fixed(v < 0, AbsInt(v), AMOUNT_DIGITS)
  {
    StroopsOf(v as real / UNITS, v);
  }

  lemma UnsignedLength(s: string)
    requires DecimalShape(s)
    ensures |Unsigned(s)| <= |WholeDigits(s)| + 1 + |FractionDigits(s)|
  {
  }

  /** At most twelve digits stand before the dot of an int64 amount. */
  lemma AmountWidth(n: nat)
    requires n <= 0x8000_0000_0000_0000
    ensures |NatToString(LeadingPart(n, AMOUNT_DIGITS))| <= 12
  {
    assert Pow10(3) == 1000;
    Pow10Sum(3, 3);
    Pow10Sum(6, 6);
    Pow10Sum(12, 6);
    assert Pow10(19) == 10 * Pow10(18);
    NatToStringWidth(n, 19);
    DigitsAroundDot(n, AMOUNT_DIGITS);
  }

  /** The printed amount is a short strict decimal that denotes it. */
  lemma PrintReads(v: int, s: string)
    requires s == StringFromStellarAmount(v)
    ensures DecimalShape(s) && ReadDecimal(s) == Decimal(v, AMOUNT_DIGITS)
    ensures IsInt64(v) ==> |Unsigned(s)| <= 20
  {
    AmountText(v);
    FixedReads(v < 0, AbsInt(v), AMOUNT_DIGITS);
    UnsignedLength(s);
    if IsInt64(v) {
      AmountWidth(AbsInt(v));
    }
  }

  lemma SameScale(v: int, w: int, places: nat)
    requires SameValue(Decimal(v, places), Decimal(w, places))
    ensures v == w
  {
  }

  /** Printing an amount and parsing the text gives the amount back, for every
      int64 and for nothing else. */
  lemma ParseInvertsPrint(v: int)
    ensures IsInt64(v) ==> ParseStellarAmount(StringFromStellarAmount(v)) == Success(v)
    ensures !IsInt64(v) ==> ParseStellarAmount(StringFromStellarAmount(v)).Failure?
  {
    var s := StringFromStellarAmount(v);
    PrintReads(v, s);
    if IsInt64(v) {
      ParseAccepts(s, v);
    } else if ParseStellarAmount(s).Success? {
      var w := ParseStellarAmount(s).value;
      ParseAccepts(s, w);
      SameScale(v, w, AMOUNT_DIGITS);
    }
  }

  /** Distinct amounts are printed differently. */
  lemma PrintIsInjective(v: int, w: int)
    requires StringFromStellarAmount(v) == StringFromStellarAmount(w)
    ensures v == w
  {
    AmountText(v);
    AmountText(w);
    FixedReads(v < 0, AbsInt(v), AMOUNT_DIGITS);
    FixedReads(w < 0, AbsInt(w), AMOUNT_DIGITS);
  }

  // ---------------------------------------------------- path payment ceiling

  function PathPaymentMaxValue(amount: string): Result<string, AmountError> {
    var v :- ParseInt64(amount);
    Success(StringFromStellarAmount(TruncDiv(Wrap64(105 * v), 100)))
  }

  const PATH_PAYMENT_BOUND: int := 87_841_638_446_235_960

  lemma WrappedCeiling(v: int)
    ensures TruncDiv(Wrap64(105 * v), 100) == TruncDiv(105 * v, 100) <==> AbsInt(v) <= PATH_PAYMENT_BOUND
  {
  }

  /** The ceiling is 105% of the amount, truncated toward zero, exactly for the
      amounts of magnitude at most the bound; beyond it the product wraps. */
  lemma CeilingIsExactUpToBound(amount: string, v: int)
    requires ParseInt64(amount) == Success(v)
    ensures PathPaymentMaxValue(amount) == Success(StringFromStellarAmount(TruncDiv(105 * v, 100)))
      <==> AbsInt(v) <= PATH_PAYMENT_BOUND
  {
    var wrapped, exact := TruncDiv(Wrap64(105 * v), 100), TruncDiv(105 * v, 100);
    assert PathPaymentMaxValue(amount) == Success(StringFromStellarAmount(wrapped));
    WrappedCeiling(v);
    if wrapped != exact && StringFromStellarAmount(wrapped) == StringFromStellarAmount(exact) {
      PrintIsInjective(wrapped, exact);
    }
  }

  /** A 64-bit number that differs by a multiple of 2^64 is the wrapped one. */
  lemma WrapUnique(x: int, w: int)
    requires -0x8000_0000_0000_0000 <= w < 0x8000_0000_0000_0000 && (w - x) % 0x1_0000_0000_0000_0000 == 0
    ensures w == Wrap64(x)
  {
  }

  /** For every amount: the 64-bit product with 105, whichever number that is, divided
      by a hundred toward zero. */
  lemma CeilingOfWrappedProduct(amount: string, v: int, w: int)
    requires ParseInt64(amount) == Success(v)
    requires -0x8000_0000_0000_0000 <= w < 0x8000_0000_0000_0000 && (w - 105 * v) % 0x1_0000_0000_0000_0000 == 0
    ensures PathPaymentMaxValue(amount) == Success(StringFromStellarAmount(if w < 0 then -((-w) / 100) else w / 100))
  {
    WrapUnique(105 * v, w);
  }

  /** Within the bound the ceiling covers the amount: parsing it back gives at
      least the amount whenever that is not negative. */
  lemma CeilingCoversAmount(amount: string, v: int)
    requires ParseInt64(amount) == Success(v) && 0 <= v <= PATH_PAYMENT_BOUND
    ensures PathPaymentMaxValue(amount).Success?
    ensures exists m :: m >= v && ParseStellarAmount(PathPaymentMaxValue(amount).value) == Success(m)
  {
    var m := TruncDiv(105 * v, 100);
    WrappedCeiling(v);
    ParseInvertsPrint(m);
    assert m >= v && ParseStellarAmount(PathPaymentMaxValue(amount).value) == Success(m);
  }
}
