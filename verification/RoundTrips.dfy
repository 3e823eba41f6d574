/** Exactly when a conversion out and back returns what went in: the rates at which
    amounts.go may be trusted with a round trip. */
module RoundTrips {
  import opened Wrappers
  import opened Decimals
  import opened Rationals
  import opened Amounts
  import opened Conversion

  /** `n` units survive multiplying by `q` and dividing by it, each time rounded. */
  predicate ComesBack(n: int, q: real)
    requires q > 0.0
  {
    Divided(Multiplied(n, q), q) == n
  }

  /** Multiplying by `q` takes less than half of `q` off `n`. */
  predicate Safe(n: int, q: real) {
    2.0 * (n as real - n as real * q) < q
  }

  lemma OrderOfQuotient(x: real, y: real, q: real)
    requires q > 0.0
    ensures x < y * q <==> x / q < y
  {
    DivMul(x, q);
    var z := x / q;
    assert (y - z) * q == y * q - x;
  }

  lemma QuotientSign(x: real, q: real)
    requires x >= 0.0 && q > 0.0
    ensures x / q >= 0.0
  {
  }

  lemma QuotientRoundsTo(m: nat, n: nat, q: real)
    requires q > 0.0 && (n as real - 0.5) * q <= m as real < (n as real + 0.5) * q
    ensures RoundHalfAway(m as real / q) == n
  {
    OrderOfQuotient(m as real, n as real + 0.5, q);
    OrderOfQuotient(m as real, n as real - 0.5, q);
    QuotientSign(m as real, q);
    RoundIsNearest(m as real / q, n);
  }

  lemma HalfSteps(x: real, q: real)
    ensures (x + 0.5) * q == x * q + 0.5 * q && (x - 0.5) * q == x * q - 0.5 * q
  {
  }

  lemma ProductShrinks(x: real, q: real)
    requires x >= 0.0 && 0.0 < q < 1.0
    ensures 0.0 <= x * q <= x
  {
    assert x * (1.0 - q) >= 0.0;
  }

  lemma SafeProduct(n: nat, q: real)
    requires 0.0 < q < 1.0 && Safe(n, q)
    ensures RoundHalfAway(n as real * q) == n
  {
    var p := n as real * q;
    ProductShrinks(n as real, q);
    RoundIsNearest(p, n);
  }

  lemma SafeComesBack(n: nat, q: real)
    requires 0.0 < q < 1.0 && Safe(n, q)
    ensures ComesBack(n, q)
  {
    SafeProduct(n, q);
    HalfSteps(n as real, q);
    QuotientRoundsTo(n, n, q);
  }

  lemma PreviousProduct(n: int, q: real)
    ensures (n - 1) as real * q == n as real * q - q
  {
  }

  lemma CarriedFurther(n: nat, p: real, q: real)
    requires 0.0 < q < 1.0 && p == n as real * q && 2.0 * (n as real - p) >= q
    ensures RoundHalfAway(n as real / q) != n
  {
    HalfSteps(n as real, q);
    OrderOfQuotient(n as real, n as real + 0.5, q);
    assert n as real / q >= n as real + 0.5;
  }

  lemma StaysShort(n: nat, p: real, q: real)
    requires 0.0 < q < 1.0 && n >= 1 && p == n as real * q
    requires 2.0 * ((n - 1) as real - (p - q)) < q
    ensures RoundHalfAway((n - 1) as real / q) != n
  {
    HalfSteps(n as real, q);
    OrderOfQuotient((n - 1) as real, n as real - 0.5, q);
    assert (n - 1) as real / q < n as real - 0.5;
    QuotientSign((n - 1) as real, q);
  }

  /** The first number that is not safe is lost: either it keeps its place and the
      quotient carries it one further, or it falls one short and stays there. */
  lemma FirstUnsafeIsLost(n: nat, q: real)
    requires 0.0 < q < 1.0 && n >= 1 && !Safe(n, q) && Safe(n - 1, q)
    ensures !ComesBack(n, q)
  {
    var x, p := n as real, n as real * q;
    ProductShrinks(x, q);
    PreviousProduct(n, q);
    if x - p <= 0.5 {
      RoundIsNearest(p, n);
      CarriedFurther(n, p, q);
    } else {
      RoundIsNearest(p, n - 1);
      StaysShort(n, p, q);
    }
  }

  lemma ComesBackIsOdd(n: int, m: int, q: real)
    requires q > 0.0 && m == -n
    ensures ComesBack(n, q) == ComesBack(m, q)
  {
    ProductTurnsSign(n, m, q);
    var k := RoundHalfAway(n as real * q);
    var y := k as real / q;
    DivMul(k as real, q);
    QuotientIs(-y, (-k) as real, q);
    RoundIsOdd(y);
  }

  lemma LossGrows(d: real, x: real, y: real, q: real)
    requires d >= 0.0 && q <= 1.0 && d == y - x
    ensures x - x * q <= y - y * q
  {
    assert d * (1.0 - q) >= 0.0;
    assert d * (1.0 - q) == (y - y * q) - (x - x * q);
  }

  lemma SafeBelow(n: int, m: int, q: real)
    requires n <= m && 0.0 < q <= 1.0 && Safe(m, q)
    ensures Safe(n, q)
  {
    LossGrows(m as real - n as real, n as real, m as real, q);
  }

  lemma SafeAtLargeRate(n: int, q: real)
    requires n >= 0 && q >= 1.0
    ensures Safe(n, q)
  {
    assert n as real * (q - 1.0) >= 0.0;
  }

  lemma {:induction false} SomeFirstUnsafe(bound: nat, q: real) returns (n: nat)
    requires q > 0.0 && !Safe(bound, q)
    ensures 1 <= n <= bound && !Safe(n, q) && Safe(n - 1, q)
  {
    if bound > 0 && Safe(bound - 1, q) {
      n := bound;
    } else {
      n := SomeFirstUnsafe(bound - 1, q);
    }
  }

  lemma WithinComesBack(n: int, bound: int, q: real)
    requires q > 0.0 && Safe(bound, q) && -bound <= n <= bound
    ensures ComesBack(n, q)
  {
    if q >= 1.0 {
      UpThenDown(n, q);
    } else {
      SafeBelow(AbsInt(n), bound, q);
      SafeComesBack(AbsInt(n), q);
      if n < 0 {
        ComesBackIsOdd(n, -n, q);
      }
    }
  }

  lemma SomeUnsafeIsLost(bound: int, q: real) returns (n: int)
    requires bound >= 0 && q > 0.0 && !Safe(bound, q)
    ensures 1 <= n <= bound && !ComesBack(n, q) && !ComesBack(-n, q)
  {
    if q >= 1.0 {
      SafeAtLargeRate(bound, q);
    }
    n := SomeFirstUnsafe(bound, q);
    FirstUnsafeIsLost(n, q);
    ComesBackIsOdd(n, -n, q);
  }

  /** All numbers up to a bound come back, the lower end included, exactly when the
      rate takes less than half of itself off the bound. */
  lemma AllComeBackExactly(bound: int, q: real)
    requires bound >= 1 && q > 0.0
    ensures (forall n :: -bound <= n < bound ==> ComesBack(n, q)) <==> Safe(bound, q)
  {
    if Safe(bound, q) {
      forall n | -bound <= n < bound ensures ComesBack(n, q) {
        WithinComesBack(n, bound, q);
      }
    } else {
      var n := SomeUnsafeIsLost(bound, q);
      assert !ComesBack(-n, q);
    }
  }

  lemma SomeUnsafe(q: real) returns (n: nat)
    requires 0.0 < q < 1.0
    ensures !Safe(n, q)
  {
    var b := q / (1.0 - q);
    DivMul(q, 1.0 - q);
    QuotientSign(q, 1.0 - q);
    n := b.Floor + 1;
    assert (n as real - b) * (1.0 - q) >= 0.0;
    assert n as real * (1.0 - q) == n as real - n as real * q;
  }

  /** Without a bound, exactly the rates of at least one return everything. */
  lemma EverythingComesBackExactly(q: real)
    requires q > 0.0
    ensures (forall n: int :: ComesBack(n, q)) <==> q >= 1.0
  {
    if q >= 1.0 {
      forall n: int ensures ComesBack(n, q) {
        UpThenDown(n, q);
      }
    } else {
      var bound := SomeUnsafe(q);
      var n := SomeUnsafeIsLost(bound, q);
      assert !ComesBack(n, q);
    }
  }

  // -------------------------------------------------------- on the texts

  /** Converting the text out and back gives the plain rendering of `n` stroops. */
  predicate LumensReturn(xlmAmount: string, rate: string, n: int) {
    && XlmToOutside(xlmAmount, rate).Success?
    && OutsideToXlm(XlmToOutside(xlmAmount, rate).value, rate) == Success(StringFromStellarAmount(n))
  }

  lemma SevenPlaceValue(s: string, z: int)
    requires DecimalShape(s) && ReadDecimal(s) == Decimal(z, AMOUNT_DIGITS)
    ensures ParseAmount(s) == Success(z as real / UNITS)
  {
    StrictExpressionIsShape(s);
    SevenPlaces();
  }

  lemma FloatStringReadsBack(x: real, scaled: real)
    requires x * UNITS == scaled
    ensures ParseAmount(FloatString7(x)) == Success(RoundHalfAway(scaled) as real / UNITS)
  {
    FloatStringReads(x);
    SevenPlaceValue(FloatString7(x), RoundHalfAway(scaled));
  }

  lemma ProductReadsBack(n: int, m: int, q: real)
    requires m == Multiplied(n, q)
    ensures ParseAmount(OutsideText(n, q)) == Success(m as real / UNITS)
  {
    ScaleProduct(n, q);
    FloatStringReadsBack(n as real / UNITS * q, n as real * q);
  }

  lemma ScaledQuotientRounds(x: real, m: int, q: real)
    requires q > 0.0 && x * UNITS == m as real
    ensures RoundHalfAway(x / q * UNITS) == Divided(m, q)
  {
    ScaleQuotient(x, m, q);
  }

  lemma UnitsOfQuotient(outsideAmount: string, x: real, m: int, rate: string, q: real)
    requires ParseExchangeRate(rate) == Success(q) && q > 0.0
    requires ParseAmount(outsideAmount) == Success(x) && x * UNITS == m as real
    ensures OutsideToXlm(outsideAmount, rate) == Success(XlmText(x, q))
    ensures UnitsOf(OutsideToXlm(outsideAmount, rate)) == Divided(m, q)
  {
    OutsideToXlmUnits(outsideAmount, rate, x, q);
    ScaledQuotientRounds(x, m, q);
  }

  /** What comes back, as a number: the product and the quotient, each rounded. */
  lemma ReturnedUnits(n: int, m: int, rate: string, q: real)
    requires ParseExchangeRate(rate) == Success(q) && m == Multiplied(n, q) && q > 0.0
    ensures OutsideToXlm(OutsideText(n, q), rate) == Success(XlmText(m as real / UNITS, q))
    ensures UnitsOf(OutsideToXlm(OutsideText(n, q), rate)) == Divided(m, q)
  {
    ProductReadsBack(n, m, q);
    DivMul(m as real, UNITS);
    UnitsOfQuotient(OutsideText(n, q), m as real / UNITS, m, rate, q);
  }

  lemma UnitsOfPrinted(n: int)
    ensures UnitsOf(Success(StringFromStellarAmount(n))) == n
  {
    PrintReads(n, StringFromStellarAmount(n));
  }

  lemma ProductFarFromZero(n: int, q: real)
    requires Multiplied(n, q) != 0
    ensures n as real * q >= 0.0 || n as real * q <= -0.5
  {
  }

  lemma QuotientFarFromZero(m: int, q: real)
    requires q > 0.0 && Divided(m, q) != 0
    ensures m as real / q >= 0.0 || m as real / q <= -0.5
  {
  }

  lemma ZeroStaysZero(n: int, m: int, q: real)
    requires q > 0.0 && n == 0 && m == Multiplied(n, q)
    ensures m as real / q == 0.0
  {
    assert n as real * q == 0.0;
    assert m == 0;
    QuotientIs(0.0, m as real, q);
  }

  lemma ReturnedText(n: int, m: int, q: real)
    requires q > 0.0 && m == Multiplied(n, q) && Divided(m, q) == n
    ensures XlmText(m as real / UNITS, q) == StringFromStellarAmount(n)
  {
    if n != 0 {
      QuotientFarFromZero(m, q);
    } else {
      ZeroStaysZero(n, m, q);
    }
    XlmTextPrints(m, q);
  }

  /** One amount returns exactly when its number of stroops does. */
  lemma LumensReturnExactly(xlmAmount: string, rate: string, n: int, q: real)
    requires ParseStellarAmount(xlmAmount) == Success(n) && ParseExchangeRate(rate) == Success(q) && q > 0.0
    ensures LumensReturn(xlmAmount, rate, n) <==> ComesBack(n, q)
  {
    var m := Multiplied(n, q);
    ReturnedUnits(n, m, rate, q);
    UnitsOfPrinted(n);
    assert XlmToOutside(xlmAmount, rate) == Success(OutsideText(n, q));
    if Divided(m, q) == n {
      ReturnedText(n, m, q);
    }
  }

  lemma AcceptedIsInt64(xlmAmount: string, n: int)
    requires ParseStellarAmount(xlmAmount) == Success(n)
    ensures MIN_INT64 <= n <= -MIN_INT64
  {
    ParseAccepts(xlmAmount, n);
  }

  /** Every lumen amount the package accepts returns at this rate, exactly when the
      rate takes less than half of itself off 2^63 stroops. */
  lemma AllLumensReturnExactly(rate: string, q: real)
    requires ParseExchangeRate(rate) == Success(q)
    ensures (forall xlmAmount, n :: ParseStellarAmount(xlmAmount) == Success(n) ==> LumensReturn(xlmAmount, rate, n))
      <==> Safe(-MIN_INT64, q)
  {
    RateIsPositive(rate, q);
    if Safe(-MIN_INT64, q) {
      forall xlmAmount, n | ParseStellarAmount(xlmAmount) == Success(n) ensures LumensReturn(xlmAmount, rate, n) {
        AcceptedIsInt64(xlmAmount, n);
        WithinComesBack(n, -MIN_INT64, q);
        LumensReturnExactly(xlmAmount, rate, n, q);
      }
    } else {
      var n := SomeUnsafeIsLost(-MIN_INT64, q);
      ParseInvertsPrint(-n);
      LumensReturnExactly(StringFromStellarAmount(-n), rate, -n, q);
    }
  }
}
