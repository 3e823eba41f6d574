/** The arbitrary-precision decimals behind FmtAmount: reading a text, rounding or
    truncating it to a number of places, and rendering it, as shopspring's
    Decimal does each of these. A decimal is held as coefficient and places, so
    the library's exponent, never positive here, is `-places`. */
module Rounding {
  import opened Wrappers
  import opened Decimals
  import opened Amounts

  function TrimZeros(f: string): (r: string)
    ensures r <= f
  {
    if f != "" && f[|f| - 1] == '0' then TrimZeros(f[..|f| - 1]) else f
  }

  /** The library reads the digits with the dot taken out; a lone minus sign, left
      over when no digit survives the trimming, is not a number to it. The
      exponent has to fit 32 bits. */
  function NewFromString(s: string): Result<Decimal, AmountError>
    requires DecimalShape(s)
  {
    ShapeSplits(s);
    var w, f := WholeDigits(s), TrimZeros(FractionDigits(s));
    NatValueConcat(w, f);
    if Negative(s) && w + f == "" then Failure(CannotParse)
    else if |f| > 0x8000_0000 then Failure(CannotParse)
    else Success(Decimal(Signed(Negative(s), NatValue(w + f)), |f|))
  }

  function ParseAmountIntoDecimal(s: string): Result<Decimal, AmountError> {
    var _ :- ValidateNumericalString(s);
    StrictExpressionIsShape(s);
    NewFromString(s)
  }

  /** A minus sign and a dot followed by nothing but zeros, at least one. */
  predicate OnlySignedZeros(s: string) {
    Negative(s) && WholeDigits(s) == "" && forall i :: 0 <= i < |FractionDigits(s)| ==> FractionDigits(s)[i] == '0'
  }

  lemma {:induction false} TrimToNothing(f: string)
    ensures TrimZeros(f) == "" <==> forall i :: 0 <= i < |f| ==> f[i] == '0'
  {
    if f != "" {
      TrimToNothing(f[..|f| - 1]);
    }
  }

  /** Reading a text fails exactly when it is not a strict decimal, when it is a
      minus sign and a dot followed by nothing but zeros, or when it has more
      significant decimals than 32 bits can count. */
  lemma DecimalAccepts(s: string)
    ensures ParseAmountIntoDecimal(s).Success? <==>
      DecimalShape(s) && !OnlySignedZeros(s) && |TrimZeros(FractionDigits(s))| <= 0x8000_0000
  {
    StrictExpressionIsShape(s);
    TrimToNothing(FractionDigits(s));
  }

  lemma LastZero(w: string, f: string)
    requires AllDigits(w) && AllDigits(f) && f != "" && f[|f| - 1] == '0'
    ensures AllDigits(w + f) && AllDigits(w + f[..|f| - 1])
    ensures NatValue(w + f) == 10 * NatValue(w + f[..|f| - 1])
  {
    assert (w + f)[..|w + f| - 1] == w + f[..|f| - 1];
  }

  lemma TenfoldProduct(x: int, y: int, p: int)
    requires x == y * p
    ensures 10 * x == y * (10 * p)
  {
  }

  lemma {:induction false} TrimKeepsValue(w: string, f: string)
    requires AllDigits(w) && AllDigits(f)
    ensures AllDigits(w + f) && AllDigits(w + TrimZeros(f))
    ensures NatValue(w + f) == NatValue(w + TrimZeros(f)) * Pow10(|f| - |TrimZeros(f)|)
  {
    if f != "" && f[|f| - 1] == '0' {
      var f' := f[..|f| - 1];
      TrimKeepsValue(w, f');
      LastZero(w, f);
      TenfoldProduct(NatValue(w + f'), NatValue(w + TrimZeros(f)), Pow10(|f'| - |TrimZeros(f)|));
    }
  }

  lemma SignedProducts(negative: bool, n: int, p: nat, q: nat)
    ensures Signed(negative, n) * (q * p) == Signed(negative, n * p) * q
  {
  }

  lemma TrimmedValue(negative: bool, w: string, f: string)
    requires AllDigits(w) && AllDigits(f)
    ensures AllDigits(w + TrimZeros(f)) && AllDigits(w + f)
    ensures SameValue(Decimal(Signed(negative, NatValue(w + TrimZeros(f))), |TrimZeros(f)|),
                      Decimal(Signed(negative, NatValue(w + f)), |f|))
  {
    TrimKeepsValue(w, f);
    var g := TrimZeros(f);
    Pow10Sum(|g|, |f| - |g|);
    SignedProducts(negative, NatValue(w + g), Pow10(|f| - |g|), Pow10(|g|));
  }

  /** What is read is the number the text denotes. */
  lemma DecimalReadsValue(s: string)
    requires ParseAmountIntoDecimal(s).Success?
    ensures DecimalShape(s) && SameValue(ParseAmountIntoDecimal(s).value, ReadDecimal(s))
  {
    StrictExpressionIsShape(s);
    ShapeSplits(s);
    TrimmedValue(Negative(s), WholeDigits(s), FractionDigits(s));
  }

  // --------------------------------------------------------------- rounding

  function Rescale(d: Decimal, places: nat): Decimal {
    if places < d.places then Decimal(TruncDiv(d.coefficient, Pow10(d.places - places)), places)
    else Decimal(d.coefficient * Pow10(places - d.places), places)
  }

  /** The library's rounding: keep one digit more, move away from zero by half,
      drop the digit with a division that floors, and correct negative results. */
  function RoundTo(d: Decimal, places: nat): Decimal {
    var r := Rescale(d, places + 1).coefficient;
    var v := if r < 0 then r - 5 else r + 5;
    var q, m := v / 10, v % 10;
    Decimal(if q < 0 && m != 0 then q + 1 else q, places)
  }

  function TruncateTo(d: Decimal, places: nat): Decimal {
    if places < d.places then Rescale(d, places) else d
  }

  /** `z` is nearest to `x / p`, and the outer one of two equally near. */
  predicate NearRatio(z: int, x: int, p: int) {
    var e := 2 * (z * p - x);
    -p <= e <= p && (e == p ==> x >= 0) && (e == -p ==> x <= 0)
  }

  /** `z` is next to `x / p` on the side of zero. */
  predicate TowardZero(z: int, x: int, p: int) {
    if x >= 0 then z >= 0 && z * p <= x < (z + 1) * p
    else z <= 0 && (z - 1) * p < x <= z * p
  }

  /** `z * 10^-k` is the decimal `d` rounded to `k` places, ties away from zero. */
  predicate NearestUnits(z: int, d: Decimal, k: nat) {
    NearRatio(z, d.coefficient * Pow10(k), Pow10(d.places))
  }

  /** `z * 10^-k` is the decimal `d` cut off after `k` places. */
  predicate TruncatedUnits(z: int, d: Decimal, k: nat) {
    TowardZero(z, d.coefficient * Pow10(k), Pow10(d.places))
  }

  lemma ExactIsTowardZero(c: int, b: int, p: int)
    requires b >= 1 && p >= 1
    ensures TowardZero(c * b, c * (p * b), p)
  {
  }

  lemma SignTimes(c: int, p: int)
    requires p >= 1
    ensures c >= 0 <==> c * p >= 0
    ensures c <= 0 <==> c * p <= 0
  {
  }

  lemma QuotientScaled(c: nat, a: int, b: int)
    requires a >= 1 && b >= 1
    ensures c / a >= 0 && (c / a) * (b * a) <= c * b < (c / a + 1) * (b * a)
  {
  }

  /** Turning both signs around. */
  lemma Negate(z: int, x: int, p: int)
    ensures (-z) * p <= -x < (-z + 1) * p <==> (z - 1) * p < x <= z * p
  {
  }

  lemma TruncatedQuotient(c: int, a: int, b: int)
    requires a >= 1 && b >= 1
    ensures TowardZero(TruncDiv(c, a), c * b, b * a)
  {
    SignTimes(c, b);
    if c >= 0 {
      QuotientScaled(c, a, b);
    } else {
      QuotientScaled(-c, a, b);
      Negate(TruncDiv(c, a), c * b, b * a);
      assert (-c) * b == -(c * b);
    }
  }

  /** Dropping digits with a division that truncates. */
  lemma RescaleTruncates(d: Decimal, k: nat)
    ensures TruncatedUnits(Rescale(d, k).coefficient, d, k)
  {
    if k < d.places {
      Pow10Sum(k, d.places - k);
      TruncatedQuotient(d.coefficient, Pow10(d.places - k), Pow10(k));
    } else {
      Pow10Sum(d.places, k - d.places);
      ExactIsTowardZero(d.coefficient, Pow10(k - d.places), Pow10(d.places));
    }
  }

  lemma ScaleBounds(x: int, y: int, b: int)
    requires x <= y && b >= 1
    ensures x * b <= y * b
  {
  }

  lemma ScaleStrict(x: int, y: int, b: int)
    requires x < y && b >= 1
    ensures x * b < y * b
  {
  }

  lemma HalfUp(r: int, z: int, p: int, x: int)
    requires p >= 1 && x >= 0
    requires r * p <= 10 * x < (r + 1) * p
    requires 10 * z <= r + 5 < 10 * z + 10
    ensures -p < 2 * (z * p - x) <= p
  {
    ScaleBounds(10 * z, r + 5, p);
    ScaleBounds(r - 4, 10 * z, p);
    assert (10 * z) * p == 10 * (z * p);
    assert (r + 5) * p == r * p + 5 * p;
    assert (r - 4) * p == (r + 1) * p - 5 * p;
  }

  lemma HalfAway(r: int, z: int, x: int, p: int)
    requires p >= 1 && TowardZero(r, 10 * x, p)
    requires var v := if r < 0 then r - 5 else r + 5;
      z == if v / 10 < 0 && v % 10 != 0 then v / 10 + 1 else v / 10
    ensures NearRatio(z, x, p)
  {
    if x >= 0 {
      HalfUp(r, z, p, x);
    } else {
      Negate(r, 10 * x, p);
      HalfUp(-r, -z, p, -x);
      assert (-z) * p == -(z * p);
    }
  }

  /** The library's rounding is to nearest, ties away from zero. */
  lemma RoundToIsNearest(d: Decimal, k: nat)
    ensures NearestUnits(RoundTo(d, k).coefficient, d, k)
  {
    var x := d.coefficient * Pow10(k);
    RescaleTruncates(d, k + 1);
    assert d.coefficient * Pow10(k + 1) == 10 * x;
    HalfAway(Rescale(d, k + 1).coefficient, RoundTo(d, k).coefficient, x, Pow10(d.places));
  }

  // ------------------------------------------------- only the value matters

  lemma CrossProducts(c: int, p: int, c': int, p': int, t: int)
    requires c * p' == c' * p
    ensures (c * t) * p' == (c' * t) * p && p * p' == p' * p
  {
  }

  lemma NearScaled(z: int, x: int, p: int, q: int)
    requires p >= 1 && q >= 1 && NearRatio(z, x, p)
    ensures NearRatio(z, x * q, p * q)
  {
  }

  /** No nearest unit lies below another: two apart is too far, and one apart would
      need a half on both sides, which only zero allows and no product is. */
  lemma NearOrder(z: int, z': int, x: int, p: int)
    requires p >= 1 && NearRatio(z, x, p) && NearRatio(z', x, p)
    ensures z >= z'
  {
    assert (z + 1) * p == z * p + p;
    assert (2 * z + 1) * p == 2 * (z * p) + p;
    NonzeroMultiple(2 * z + 1, p);
    if z < z' {
      ScaleBounds(z + 1, z', p);
    }
  }

  lemma NearClose(z: int, z': int, x: int, p: int)
    requires p >= 1 && NearRatio(z, x, p) && NearRatio(z', x, p)
    ensures z == z'
  {
    NearOrder(z, z', x, p);
    NearOrder(z', z, x, p);
  }

  /** Equal numbers round to the same units. */
  lemma NearestIsUnique(z: int, d: Decimal, z': int, d': Decimal, k: nat)
    requires SameValue(d, d') && NearestUnits(z, d, k) && NearestUnits(z', d', k)
    ensures z == z'
  {
    var p, p', x, x' := Pow10(d.places), Pow10(d'.places), d.coefficient * Pow10(k), d'.coefficient * Pow10(k);
    CrossProducts(d.coefficient, p, d'.coefficient, p', Pow10(k));
    NearScaled(z, x, p, p');
    NearScaled(z', x', p', p);
    NearClose(z, z', x * p', p * p');
  }

  lemma TowardScaled(z: int, x: int, p: int, q: int)
    requires p >= 1 && q >= 1 && TowardZero(z, x, p)
    ensures TowardZero(z, x * q, p * q)
  {
    SignTimes(x, q);
    assert z * (p * q) == (z * p) * q;
    if x >= 0 {
      ScaleBounds(z * p, x, q);
      ScaleStrict(x, (z + 1) * p, q);
      assert (z + 1) * (p * q) == ((z + 1) * p) * q;
    } else {
      ScaleBounds(x, z * p, q);
      ScaleStrict((z - 1) * p, x, q);
      assert (z - 1) * (p * q) == ((z - 1) * p) * q;
    }
  }

  lemma TowardClose(z: int, z': int, x: int, p: int)
    requires p >= 1 && TowardZero(z, x, p) && TowardZero(z', x, p)
    ensures z == z'
  {
    if z < z' {
      ScaleBounds(z + 1, z', p);
      ScaleBounds(z, z' - 1, p);
    } else if z' < z {
      ScaleBounds(z' + 1, z, p);
      ScaleBounds(z', z - 1, p);
    }
  }

  /** Equal numbers are cut off to the same units. */
  lemma TruncatedIsUnique(z: int, d: Decimal, z': int, d': Decimal, k: nat)
    requires SameValue(d, d') && TruncatedUnits(z, d, k) && TruncatedUnits(z', d', k)
    ensures z == z'
  {
    var p, p', x, x' := Pow10(d.places), Pow10(d'.places), d.coefficient * Pow10(k), d'.coefficient * Pow10(k);
    CrossProducts(d.coefficient, p, d'.coefficient, p', Pow10(k));
    TowardScaled(z, x, p, p');
    TowardScaled(z', x', p', p);
    TowardClose(z, z', x * p', p * p');
  }

  lemma CancelFactor(x: int, y: int, q: int)
    requires q >= 1 && x * q == y * q
    ensures x == y
  {
  }

  lemma CrossTransitive(x: int, p: int, y: int, q: int, z: int, r: int)
    requires q >= 1 && x * q == y * p && y * r == z * q
    ensures x * r == z * p
  {
    assert (x * r) * q == (x * q) * r;
    assert (y * p) * r == (y * r) * p;
    assert (z * q) * p == (z * p) * q;
    CancelFactor(x * r, z * p, q);
  }

  /** Two decimals of one value behave alike. */
  lemma SameValueTransitive(a: Decimal, b: Decimal, c: Decimal)
    requires SameValue(a, b) && SameValue(b, c)
    ensures SameValue(a, c)
  {
    CrossTransitive(a.coefficient, Pow10(a.places), b.coefficient, Pow10(b.places), c.coefficient, Pow10(c.places));
  }

  /** A number that has only `k` places is its own rounding and truncation. */
  lemma ExactUnits(z: int, k: nat)
    ensures NearestUnits(z, Decimal(z, k), k) && TruncatedUnits(z, Decimal(z, k), k)
  {
  }
}
