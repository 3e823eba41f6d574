/** Currency conversion and amount comparison (amounts.go), carried out on
    mutable rationals and rounded to seven places. */
module Conversion {
  import opened Wrappers
  import opened Decimals
  import opened Rationals
  import opened Amounts

  /** The value of a strict decimal, of any size and precision. */
  function ParseAmount(s: string): Result<real, AmountError> {
    var _ :- ValidateNumericalString(s);
    if DecimalShape(s) then Success(ValueOf(ReadDecimal(s))) else Failure(CannotParse)
  }

  function ParseExchangeRate(rate: string): Result<real, AmountError> {
    var q :- ParseAmount(rate);
    if q > 0.0 then Success(q)
    else if q == 0.0 then Failure(ZeroRate)
    else Failure(NegativeRate)
  }

  /** `n` stroops at rate `q`, rounded to seven places. */
  function OutsideText(n: int, q: real): string {
    FloatString7(n as real / UNITS * q)
  }

  /** The lumens an outside amount `x` buys at rate `q`, rounded to seven places. */
  function XlmText(x: real, q: real): string
    requires q > 0.0
  {
    FloatString7(x / q)
  }

  function XlmToOutside(xlmAmount: string, rate: string): Result<string, AmountError> {
    var q :- ParseExchangeRate(rate);
    var n :- ParseStellarAmount(xlmAmount);
    Success(OutsideText(n, q))
  }

  function OutsideToXlm(outsideAmount: string, rate: string): Result<string, AmountError> {
    var q :- ParseExchangeRate(rate);
    var x :- ParseAmount(outsideAmount);
    Success(XlmText(x, q))
  }

  method MultiplyAndPrint(amount: int, q: real) returns (text: string)
    ensures text == OutsideText(amount, q)
  {
    var acc := new Rat(amount, STROOPS_PER_LUMEN);
    assert acc.v == amount as real / UNITS;
    var rateRat := new Rat.FromValue(q);
    acc.Mul(acc, rateRat);
    assert acc.v == amount as real / UNITS * q;
    text := FloatString7(acc.v);
  }

  method ConvertXLMToOutside(xlmAmount: string, rate: string) returns (r: Result<string, AmountError>)
    ensures r == XlmToOutside(xlmAmount, rate)
  {
    var q :- ParseExchangeRate(rate);
    var amount :- ParseStellarAmount(xlmAmount);
    var text := MultiplyAndPrint(amount, q);
    return Success(text);
  }

  method ConvertOutsideToXLM(outsideAmount: string, rate: string) returns (r: Result<string, AmountError>)
    ensures r == OutsideToXlm(outsideAmount, rate)
  {
    var q :- ParseExchangeRate(rate);
    var x :- ParseAmount(outsideAmount);
    var acc := new Rat.FromValue(x);
    var rateRat := new Rat.FromValue(q);
    acc.Quo(acc, rateRat);
    return Success(FloatString7(acc.v));
  }

  // ------------------------------------------------ what a conversion means

  /** `y` denotes a multiple of 10^-7 nearest to `scaled * 10^-7`. */
  predicate IsNearestText(y: string, scaled: real) {
    && DecimalShape(y)
    && ReadDecimal(y).places == AMOUNT_DIGITS
    && NearestAwayFromZero(scaled, ReadDecimal(y).coefficient)
  }

  lemma ScaledTextIsNearest(x: real, scaled: real)
    requires x * UNITS == scaled
    ensures IsNearestText(FloatString7(x), scaled)
  {
    FloatStringReads(x);
    RoundIsNearest(scaled, RoundHalfAway(scaled));
  }

  lemma ScaleProduct(n: int, q: real)
    ensures (n as real / UNITS * q) * UNITS == n as real * q
  {
  }

  lemma OutsideTextIsNearest(n: int, q: real)
    ensures IsNearestText(OutsideText(n, q), n as real * q)
  {
    ScaleProduct(n, q);
    ScaledTextIsNearest(n as real / UNITS * q, n as real * q);
  }

  /** Converting lumens gives the nearest multiple of 10^-7 to amount * rate. */
  lemma XlmToOutsideIsNearest(xlmAmount: string, rate: string, n: int, q: real)
    requires ParseStellarAmount(xlmAmount) == Success(n) && ParseExchangeRate(rate) == Success(q)
    ensures XlmToOutside(xlmAmount, rate).Success?
    ensures IsNearestText(XlmToOutside(xlmAmount, rate).value, n as real * q)
  {
    assert XlmToOutside(xlmAmount, rate) == Success(OutsideText(n, q));
    OutsideTextIsNearest(n, q);
  }

  /** Converting to lumens gives the nearest multiple of 10^-7 to amount / rate. */
  lemma OutsideToXlmIsNearest(outsideAmount: string, rate: string, x: real, q: real)
    requires ParseAmount(outsideAmount) == Success(x) && ParseExchangeRate(rate) == Success(q)
    ensures OutsideToXlm(outsideAmount, rate).Success?
    ensures IsNearestText(OutsideToXlm(outsideAmount, rate).value, x / q * UNITS)
  {
    assert OutsideToXlm(outsideAmount, rate) == Success(XlmText(x, q));
    ScaledTextIsNearest(x / q, x / q * UNITS);
  }

  /** The multiple of 10^-7 that a conversion printed. */
  function UnitsOf(r: Result<string, AmountError>): int {
    if r.Success? && DecimalShape(r.value) then ReadDecimal(r.value).coefficient else 0
  }

  lemma NearestUnitsOf(y: string, a: real)
    requires IsNearestText(y, a)
    ensures UnitsOf(Success(y)) == RoundHalfAway(a)
  {
  }

  function Multiplied(n: int, q: real): int {
    RoundHalfAway(n as real * q)
  }

  lemma XlmToOutsideUnits(xlmAmount: string, rate: string, n: int, q: real)
    requires ParseStellarAmount(xlmAmount) == Success(n) && ParseExchangeRate(rate) == Success(q)
    ensures UnitsOf(XlmToOutside(xlmAmount, rate)) == Multiplied(n, q)
  {
    XlmToOutsideIsNearest(xlmAmount, rate, n, q);
    NearestUnitsOf(XlmToOutside(xlmAmount, rate).value, n as real * q);
  }

  lemma OutsideToXlmUnits(outsideAmount: string, rate: string, x: real, q: real)
    requires ParseAmount(outsideAmount) == Success(x) && ParseExchangeRate(rate) == Success(q) && q > 0.0
    ensures UnitsOf(OutsideToXlm(outsideAmount, rate)) == RoundHalfAway(x / q * UNITS)
  {
    OutsideToXlmIsNearest(outsideAmount, rate, x, q);
    NearestUnitsOf(OutsideToXlm(outsideAmount, rate).value, x / q * UNITS);
  }

  lemma ProductKeepsOrder(n: int, m: int, q: real)
    requires n <= m && q > 0.0
    ensures Multiplied(n, q) <= Multiplied(m, q)
  {
  }

  lemma ProductTurnsSign(n: int, m: int, q: real)
    requires m == -n
    ensures Multiplied(m, q) == -Multiplied(n, q)
  {
    assert m as real * q == -(n as real * q);
    RoundIsOdd(n as real * q);
  }

  lemma QuotientKeepsOrder(x: real, y: real, q: real)
    requires x <= y && q > 0.0
    ensures RoundHalfAway(x / q * UNITS) <= RoundHalfAway(y / q * UNITS)
  {
  }

  lemma QuotientIs(z: real, x: real, q: real)
    requires q > 0.0 && z * q == x
    ensures z == x / q
  {
  }

  lemma QuotientTurnsSign(x: real, y: real, q: real)
    requires q > 0.0 && y == -x
    ensures RoundHalfAway(y / q * UNITS) == -RoundHalfAway(x / q * UNITS)
  {
    DivMul(x, q);
    QuotientIs(-(x / q), y, q);
    RoundIsOdd(x / q * UNITS);
  }

  lemma RateIsPositive(rate: string, q: real)
    requires ParseExchangeRate(rate) == Success(q)
    ensures q > 0.0
  {
  }

  /** At one rate, more lumens never convert to less. */
  lemma XlmToOutsideIsMonotone(xlm1: string, xlm2: string, rate: string, n: int, m: int, q: real)
    requires ParseStellarAmount(xlm1) == Success(n) && ParseStellarAmount(xlm2) == Success(m) && n <= m
    requires ParseExchangeRate(rate) == Success(q)
    ensures UnitsOf(XlmToOutside(xlm1, rate)) <= UnitsOf(XlmToOutside(xlm2, rate))
  {
    RateIsPositive(rate, q);
    XlmToOutsideUnits(xlm1, rate, n, q);
    XlmToOutsideUnits(xlm2, rate, m, q);
    ProductKeepsOrder(n, m, q);
  }

  /** Negative amounts convert like positive ones. */
  lemma XlmToOutsideIsOdd(xlm1: string, xlm2: string, rate: string, n: int, m: int, q: real)
    requires ParseStellarAmount(xlm1) == Success(n) && ParseStellarAmount(xlm2) == Success(m) && m == -n
    requires ParseExchangeRate(rate) == Success(q)
    ensures UnitsOf(XlmToOutside(xlm2, rate)) == -UnitsOf(XlmToOutside(xlm1, rate))
  {
    XlmToOutsideUnits(xlm1, rate, n, q);
    XlmToOutsideUnits(xlm2, rate, m, q);
    ProductTurnsSign(n, m, q);
  }

  /** The same of the opposite conversion. */
  lemma OutsideToXlmIsMonotone(outside1: string, outside2: string, rate: string, x: real, y: real, q: real)
    requires ParseAmount(outside1) == Success(x) && ParseAmount(outside2) == Success(y) && x <= y
    requires ParseExchangeRate(rate) == Success(q)
    ensures UnitsOf(OutsideToXlm(outside1, rate)) <= UnitsOf(OutsideToXlm(outside2, rate))
  {
    RateIsPositive(rate, q);
    OutsideToXlmUnits(outside1, rate, x, q);
    OutsideToXlmUnits(outside2, rate, y, q);
    QuotientKeepsOrder(x, y, q);
  }

  lemma OutsideToXlmIsOdd(outside1: string, outside2: string, rate: string, x: real, y: real, q: real)
    requires ParseAmount(outside1) == Success(x) && ParseAmount(outside2) == Success(y) && y == -x
    requires ParseExchangeRate(rate) == Success(q)
    ensures UnitsOf(OutsideToXlm(outside2, rate)) == -UnitsOf(OutsideToXlm(outside1, rate))
  {
    RateIsPositive(rate, q);
    OutsideToXlmUnits(outside1, rate, x, q);
    OutsideToXlmUnits(outside2, rate, y, q);
    QuotientTurnsSign(x, y, q);
  }

  lemma ScaleQuotient(x: real, m: int, q: real)
    requires q > 0.0 && x * UNITS == m as real
    ensures (x / q) * UNITS == m as real / q
  {
  }

  /** A scaled number that is zero or at least half a unit prints as an amount. */
  lemma PrintsAsAmount(x: real, scaled: real)
    requires x * UNITS == scaled
    requires scaled >= 0.0 || scaled <= -0.5
    ensures FloatString7(x) == StringFromStellarAmount(RoundHalfAway(scaled))
  {
  }

  lemma ReadBackValue(m: int)
    ensures ParseAmount(StringFromStellarAmount(m)) == Success(m as real / UNITS)
  {
    var s := StringFromStellarAmount(m);
    AmountText(m);
    FixedReads(m < 0, AbsInt(m), AMOUNT_DIGITS);
    StrictExpressionIsShape(s);
    SevenPlaces();
  }

  // ------------------------------------------------------------ round trips

  function Divided(m: int, q: real): int
    requires q > 0.0
  {
    RoundHalfAway(m as real / q)
  }

  lemma Grows(d: real, q: real)
    requires d > 0.0 && q >= 1.0
    ensures d * q >= d
    ensures q > 1.0 ==> d * q > d
  {
  }

  lemma SmallOffset(d: real, q: real)
    requires q >= 1.0 && -0.5 <= d * q <= 0.5
    ensures -0.5 <= d <= 0.5
    ensures q > 1.0 ==> -0.5 < d < 0.5
  {
    if d > 0.0 {
      Grows(d, q);
    } else if d < 0.0 {
      Grows(-d, q);
      assert (-d) * q == -(d * q);
    }
  }

  /** Multiplying by a rate of at least one spreads the grid out, so dividing and
      rounding again returns to the starting point. */
  lemma UpThenDown(n: int, q: real)
    requires q >= 1.0
    ensures Divided(Multiplied(n, q), q) == n
  {
    var m := RoundHalfAway(n as real * q);
    var z := m as real / q;
    RoundIsNearest(n as real * q, m);
    DivMul(m as real, q);
    SmallOffset(z - n as real, q);
    assert (z - n as real) * q == m as real - n as real * q;
    if q == 1.0 {
      RoundOfInt(n);
    }
    RoundIsNearest(z, n);
  }

  lemma Inverse(q: real)
    requires 0.0 < q <= 1.0
    ensures 1.0 / q >= 1.0
  {
  }

  lemma InverseSwaps(x: real, q: real)
    requires q > 0.0
    ensures x / q == x * (1.0 / q)
    ensures x * q == x / (1.0 / q)
  {
  }

  lemma InverseFactor(x: real, q: real, r: real)
    requires q > 0.0 && r > 0.0 && r == 1.0 / q
    ensures x / q == x * r && x * q == x / r
  {
    InverseSwaps(x, q);
  }

  lemma InverseRate(m: int, q: real, r: real)
    requires q > 0.0 && r > 0.0 && r == 1.0 / q
    ensures Divided(m, q) == Multiplied(m, r) && Multiplied(m, q) == Divided(m, r)
  {
    InverseFactor(m as real, q, r);
  }

  lemma DownThenUp(m: int, q: real, n: int)
    requires 0.0 < q <= 1.0 && n == Divided(m, q)
    ensures Multiplied(n, q) == m
  {
    var r := 1.0 / q;
    Inverse(q);
    InverseRate(m, q, r);
    InverseRate(n, q, r);
    UpThenDown(m, r);
  }

  lemma AwayFromZero(n: int, q: real)
    requires q >= 1.0
    ensures n as real * q >= 0.0 || n as real * q <= -1.0
  {
  }

  lemma OutsideTextPrintsFar(n: int, q: real)
    requires n as real * q >= 0.0 || n as real * q <= -0.5
    ensures OutsideText(n, q) == StringFromStellarAmount(Multiplied(n, q))
  {
    ScaleProduct(n, q);
    PrintsAsAmount(n as real / UNITS * q, n as real * q);
  }

  /** The outside text of `n` stroops is the plain rendering of the product. */
  lemma OutsideTextPrints(n: int, q: real)
    requires q >= 1.0
    ensures OutsideText(n, q) == StringFromStellarAmount(Multiplied(n, q))
  {
    AwayFromZero(n, q);
    OutsideTextPrintsFar(n, q);
  }

  /** The lumen text of `m` units of 10^-7 is the plain rendering of the quotient. */
  lemma XlmTextPrints(m: int, q: real)
    requires q > 0.0 && (m as real / q >= 0.0 || m as real / q <= -0.5)
    ensures XlmText(m as real / UNITS, q) == StringFromStellarAmount(Divided(m, q))
  {
    var x := m as real / UNITS;
    ScaleQuotient(x, m, q);
    PrintsAsAmount(x / q, m as real / q);
  }

  /** The quotient of a rounded product is never a small negative number. */
  lemma QuotientKeepsDistance(n: int, m: int, q: real)
    requires q >= 1.0 && m == Multiplied(n, q)
    ensures m as real / q >= 0.0 || m as real / q <= -0.5
  {
    AwayFromZero(n, q);
    UpThenDown(n, q);
    DivMul(m as real, q);
    RoundKeepsSign(n as real * q);
    if n >= 0 {
      assert n as real * q >= 0.0;
    }
  }

  /** At a rate of one or more, lumens survive the trip out and back exactly. */
  lemma XlmSurvivesRoundTrip(xlmAmount: string, rate: string, n: int, q: real)
    requires ParseStellarAmount(xlmAmount) == Success(n)
    requires ParseExchangeRate(rate) == Success(q) && q >= 1.0
    ensures XlmToOutside(xlmAmount, rate).Success?
    ensures OutsideToXlm(XlmToOutside(xlmAmount, rate).value, rate) == Success(StringFromStellarAmount(n))
  {
    var m := Multiplied(n, q);
    OutsideTextPrints(n, q);
    assert XlmToOutside(xlmAmount, rate) == Success(StringFromStellarAmount(m));
    ReadBackValue(m);
    QuotientKeepsDistance(n, m, q);
    XlmTextPrints(m, q);
    UpThenDown(n, q);
  }

  lemma XlmTextOfUnits(m: int, q: real)
    requires 0.0 < q <= 1.0
    ensures XlmText(m as real / UNITS, q) == StringFromStellarAmount(Divided(m, q))
  {
    Inverse(q);
    InverseSwaps(m as real, q);
    AwayFromZero(m, 1.0 / q);
    XlmTextPrints(m, q);
  }

  lemma ProductKeepsDistance(n: int, m: int, q: real)
    requires 0.0 < q <= 1.0 && n == Divided(m, q)
    ensures n as real * q >= 0.0 || n as real * q <= -0.5
  {
    Inverse(q);
    InverseSwaps(m as real, q);
    InverseSwaps(n as real, q);
    QuotientKeepsDistance(m, n, 1.0 / q);
  }

  lemma OutsideTextOfRounded(m: int, q: real, n: int)
    requires 0.0 < q <= 1.0 && n == Divided(m, q)
    ensures OutsideText(n, q) == StringFromStellarAmount(m)
  {
    var k := Multiplied(n, q);
    DownThenUp(m, q, n);
    assert OutsideText(n, q) == StringFromStellarAmount(k) by {
      ProductKeepsDistance(n, m, q);
      OutsideTextPrintsFar(n, q);
    }
  }

  /** At a rate of at most one, an outside amount of at most seven decimals
      survives the opposite trip whenever the lumens in between are an int64
      amount, and otherwise the second conversion refuses them. */
  lemma OutsideSurvivesRoundTrip(outsideAmount: string, rate: string, m: int, q: real)
    requires ParseAmount(outsideAmount) == Success(m as real / UNITS)
    requires ParseExchangeRate(rate) == Success(q) && q <= 1.0
    ensures OutsideToXlm(outsideAmount, rate).Success?
    ensures var xlm := OutsideToXlm(outsideAmount, rate).value;
      if IsInt64(Divided(m, q))
      then XlmToOutside(xlm, rate) == Success(StringFromStellarAmount(m))
      else XlmToOutside(xlm, rate).Failure?
  {
    RateIsPositive(rate, q);
    var n := Divided(m, q);
    var xlm := StringFromStellarAmount(n);
    XlmTextOfUnits(m, q);
    assert OutsideToXlm(outsideAmount, rate) == Success(xlm);
    ParseInvertsPrint(n);
    OutsideTextOfRounded(m, q, n);
  }

  lemma RoundsToZero(q: real)
    requires 0.0 < q < 0.5
    ensures Multiplied(1, q) == 0
  {
  }

  lemma OneStroopText(q: real)
    requires 0.0 < q < 0.5
    ensures OutsideText(1, q) == StringFromStellarAmount(0)
  {
    OutsideTextPrintsFar(1, q);
    RoundsToZero(q);
  }

  lemma ZeroXlmText(q: real)
    requires q > 0.0
    ensures XlmText(0.0 / UNITS, q) == StringFromStellarAmount(0)
  {
  }

  /** The rate matters: below one half, a single stroop is converted to zero and
      does not come back. */
  lemma StroopIsLostAtSmallRate(xlmAmount: string, rate: string, q: real)
    requires ParseStellarAmount(xlmAmount) == Success(1)
    requires ParseExchangeRate(rate) == Success(q) && q < 0.5
    ensures XlmToOutside(xlmAmount, rate).Success?
    ensures OutsideToXlm(XlmToOutside(xlmAmount, rate).value, rate) == Success(StringFromStellarAmount(0))
  {
    RateIsPositive(rate, q);
    OneStroopText(q);
    assert XlmToOutside(xlmAmount, rate) == Success(StringFromStellarAmount(0));
    ReadBackValue(0);
    ZeroXlmText(q);
  }

  lemma NegativeZeroAt(x: real, scaled: real)
    requires x * UNITS == scaled
    ensures FloatString7(x) == NEGATIVE_ZERO <==> -0.5 < scaled < 0.0
  {
    NegativeZeroExactly(x);
  }

  lemma OutsideTextIsNegativeZero(n: int, q: real)
    ensures OutsideText(n, q) == NEGATIVE_ZERO <==> -0.5 < n as real * q < 0.0
  {
    ScaleProduct(n, q);
    NegativeZeroAt(n as real / UNITS * q, n as real * q);
  }

  /** Lumens convert to a zero with a sign exactly when the product is negative and
      less than half a unit away from zero. */
  lemma OutsideIsNegativeZeroExactly(xlmAmount: string, rate: string, n: int, q: real)
    requires ParseStellarAmount(xlmAmount) == Success(n) && ParseExchangeRate(rate) == Success(q)
    ensures XlmToOutside(xlmAmount, rate) == Success(NEGATIVE_ZERO) <==> -0.5 < n as real * q < 0.0
  {
    assert XlmToOutside(xlmAmount, rate) == Success(OutsideText(n, q));
    OutsideTextIsNegativeZero(n, q);
  }

  /** The same of the opposite conversion. */
  lemma XlmIsNegativeZeroExactly(outsideAmount: string, rate: string, x: real, q: real)
    requires ParseAmount(outsideAmount) == Success(x) && ParseExchangeRate(rate) == Success(q)
    ensures OutsideToXlm(outsideAmount, rate) == Success(NEGATIVE_ZERO) <==> -0.5 < x / q * UNITS < 0.0
  {
    RateIsPositive(rate, q);
    NegativeZeroExactly(x / q);
  }
}
