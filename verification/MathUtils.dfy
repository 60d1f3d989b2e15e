/** Fixed-point arithmetic with PRECISE_UNIT as one, in every rounding direction. */
module MathUtils {
  import opened Arithmetic
  import opened BigNumbers

  function PreciseMul(a: int, b: int): int {
    Div(a * b, PRECISE_UNIT)
  }

  function PreciseMulCeil(a: int, b: int): int {
    if a == 0 || b == 0 then 0 else Div(a * b - 1, PRECISE_UNIT) + 1
  }

  function PreciseMulCeilInt(a: int, b: int): int {
    if a == 0 || b == 0 then 0
    else if (0 < a && 0 < b) || (a < 0 && b < 0) then Div(a * b - 1, PRECISE_UNIT) + 1
    else Div(a * b + 1, PRECISE_UNIT) - 1
  }

  function PreciseDiv(a: int, b: int): int
    requires b != 0
  {
    Div(a * PRECISE_UNIT, b)
  }

  /** A zero divisor yields zero here instead of throwing. */
  function PreciseDivCeil(a: int, b: int): int {
    if a == 0 || b == 0 then 0 else Div(a * PRECISE_UNIT - 1, b) + 1
  }

  function PreciseDivCeilInt(a: int, b: int): int
    requires b != 0
  {
    var result := Div(a * PRECISE_UNIT, b);
    if result * b == a * PRECISE_UNIT then result
    else if (0 < a && 0 < b) || (a < 0 && b < 0) then result + 1
    else result - 1
  }

  /** The modulus is negated for a negative divisor because `mod` rejects one. */
  function DivDown(a: int, b: int): int
    requires b != 0
  {
    var result := Div(a, b);
    if a < 0 && 0 < b && Mod(a, b) != 0 then result - 1
    else if 0 < a && b < 0 && Mod(a, -b) != 0 then result - 1
    else result
  }

  function Min(valueOne: int, valueTwo: int): int {
    if valueOne < valueTwo then valueOne else valueTwo
  }

  // ----- Working facts for non-negative operands -----

  lemma MulFloor(a: int, b: int)
    requires 0 <= a && 0 <= b
    ensures 0 <= PreciseMul(a, b)
    ensures PreciseMul(a, b) * PRECISE_UNIT <= a * b < PreciseMul(a, b) * PRECISE_UNIT + PRECISE_UNIT
  {
  }

  lemma MulCeil(a: int, b: int)
    requires 0 <= a && 0 <= b
    ensures 0 <= PreciseMulCeil(a, b)
    ensures IsCeiling(PreciseMulCeil(a, b), a * b, PRECISE_UNIT)
  {
  }

  lemma DivideFloor(a: int, b: int)
    requires 0 <= a && 0 < b
    ensures 0 <= PreciseDiv(a, b)
    ensures PreciseDiv(a, b) * b <= a * PRECISE_UNIT < PreciseDiv(a, b) * b + b
  {
  }

  /** A factor of at most one never enlarges. */
  lemma MulAtMost(a: int, b: int)
    requires 0 <= a && 0 <= b <= PRECISE_UNIT
    ensures 0 <= PreciseMul(a, b) <= PreciseMulCeil(a, b) <= a
  {
  }

  lemma MulMono(a: int, b: int, c: int)
    requires 0 <= a <= b && 0 <= c
    ensures PreciseMul(a, c) <= PreciseMul(b, c)
    ensures PreciseMul(c, a) <= PreciseMul(c, b)
  {
    MulLe(a, b, c);
    MulLe(0, a, c);
    FloorMono(a * c, b * c, PRECISE_UNIT);
  }

  lemma DivideMono(a: int, b: int, d: int)
    requires 0 <= a <= b && 0 < d
    ensures PreciseDiv(a, d) <= PreciseDiv(b, d)
  {
    FloorMono(a * PRECISE_UNIT, b * PRECISE_UNIT, d);
  }

  // ----- What each primitive rounds to, over all signs -----

  lemma PreciseMulTruncates(a: int, b: int)
    ensures IsTruncated(PreciseMul(a, b), a * b, PRECISE_UNIT)
  {
  }

  lemma PreciseDivTruncates(a: int, b: int)
    requires b != 0
    ensures IsTruncated(PreciseDiv(a, b), a * PRECISE_UNIT, b)
  {
    DivTruncates(a * PRECISE_UNIT, b);
  }

  /** The unsigned helper is a ceiling on signed operands exactly when the product is not
      negative, or is one above a multiple of the unit. */
  lemma PreciseMulCeilIsCeilingIff(a: int, b: int)
    ensures IsCeiling(PreciseMulCeil(a, b), a * b, PRECISE_UNIT)
       <==> 0 <= a * b || (a * b - 1) % PRECISE_UNIT == 0
  {
  }

  /** The ceilings take one from the numerator, truncate, and add one back, for all signs; a zero operand
      gives zero before that. */
  lemma CeilingsTruncateBelow(a: int, b: int)
    ensures a == 0 || b == 0 ==> PreciseMulCeil(a, b) == PreciseDivCeil(a, b) == 0
    ensures a != 0 && b != 0 ==> IsTruncated(PreciseMulCeil(a, b) - 1, a * b - 1, PRECISE_UNIT)
    ensures a != 0 && b != 0 ==> IsTruncated(PreciseDivCeil(a, b) - 1, a * PRECISE_UNIT - 1, b)
  {
    if a != 0 && b != 0 {
      DivTruncates(a * b - 1, PRECISE_UNIT);
      DivTruncates(a * PRECISE_UNIT - 1, b);
    }
  }

  lemma PreciseMulCeilIntAwayFromZero(a: int, b: int)
    ensures IsAwayFromZero(PreciseMulCeilInt(a, b), a * b, PRECISE_UNIT)
  {
  }

  /** On the unsigned domain the quotient is the ceiling; a zero divisor gives zero. */
  lemma PreciseDivCeilIsCeiling(a: int, b: int)
    requires 0 <= a && 0 <= b
    ensures b == 0 ==> PreciseDivCeil(a, b) == 0
    ensures 0 < b ==> IsCeiling(PreciseDivCeil(a, b), a * PRECISE_UNIT, b)
  {
  }

  /** On signed operands it is the ceiling for a zero numerator and for two positive operands. For a
      negative numerator it is one too high unless the subtraction before the division makes up for
      it, and for a negative divisor under a positive numerator it is never the ceiling. */
  lemma PreciseDivCeilIsCeilingIff(a: int, b: int)
    requires b != 0
    ensures IsCeiling(PreciseDivCeil(a, b), a * PRECISE_UNIT, b)
       <==> || a == 0
            || (0 < b && (0 < a || (a * PRECISE_UNIT - 1) % b == 0))
            || (a < 0 && b < 0 && a * PRECISE_UNIT % b != 0 && (a * PRECISE_UNIT - 1) % b != 0)
  {
    var n := a * PRECISE_UNIT;
    if a != 0 {
      if 0 < b {
        if 0 < a {
          PreciseDivCeilIsCeiling(a, b);
        } else {
          CeilingBelow(-n, b);
        }
      } else if 0 < a {
        NeverCeiling(n, -b);
      } else {
        CeilingOfNegatives(-n, -b);
      }
    }
  }

  /** A negative numerator -k over a positive divisor. */
  lemma CeilingBelow(k: int, d: int)
    requires 0 < k && 0 < d
    ensures IsCeiling(Div(-k - 1, d) + 1, -k, d) <==> (-k - 1) % d == 0
  {
    var q := (k + 1) / d;
    FloorOfNegation(k + 1, d);
    assert -(k + 1) == -k - 1 && k + 1 == d * q + (k + 1) % d;
    assert (1 - q) * d == d - d * q;
  }

  /** A positive numerator n over a negative divisor -d. */
  lemma NeverCeiling(n: int, d: int)
    requires 0 < n && 0 < d
    ensures !IsCeiling(Div(n - 1, -d) + 1, n, -d)
  {
    var q := (n - 1) / d;
    Floor(n - 1, d);
    assert Div(n - 1, -d) == -q;
    assert (1 - q) * -d == q * d - d;
  }

  /** A negative numerator -k over a negative divisor -d. */
  lemma CeilingOfNegatives(k: int, d: int)
    requires 0 < k && 0 < d
    ensures IsCeiling(Div(-k - 1, -d) + 1, -k, -d) <==> -k % -d != 0 && (-k - 1) % -d != 0
  {
    var q, r := (k + 1) / d, (k + 1) % d;
    assert Div(-k - 1, -d) == q && k + 1 == d * q + r;
    assert (q + 1) * -d == -(d * q) - d;
    assert -k - 1 == -(k + 1);
    FloorOfNegation(k + 1, d);
    FloorOfNegation(k, d);
    NegativeModulus(-k, d);
    NegativeModulus(-k - 1, d);
    OneLess(k, d);
  }

  lemma NegativeModulus(n: int, d: int)
    requires 0 < d
    ensures n % -d == n % d
  {
  }

  /** k is a multiple of d exactly when k + 1 leaves one, or leaves nothing over a divisor of one. */
  lemma OneLess(k: int, d: int)
    requires 0 < d
    ensures k % d == 0 <==> (k + 1) % d == 1 || d == 1
  {
    var q, r := (k + 1) / d, (k + 1) % d;
    assert k + 1 == d * q + r;
    assert k == d * (k / d) + k % d;
    if k % d == 0 && d != 1 {
      assert d * (q - k / d) == 1 - r;
      SmallMultiple(q - k / d, d);
    }
    if r == 1 && d != 1 {
      assert d * (q - k / d) == k % d;
      SmallMultiple(q - k / d, d);
    }
  }

  lemma PreciseDivCeilIntAwayFromZero(a: int, b: int)
    requires b != 0
    ensures IsAwayFromZero(PreciseDivCeilInt(a, b), a * PRECISE_UNIT, b)
  {
    var n := a * PRECISE_UNIT;
    var q := Div(n, b);
    DivTruncates(n, b);
    ExactIff(q, n, b);
    if a != 0 {
      StepAway(q, PreciseDivCeilInt(a, b), n, b);
    }
  }

  /** Moving an inexact truncated quotient one away from zero rounds away from zero. */
  lemma StepAway(q: int, r: int, n: int, b: int)
    requires b != 0 && IsTruncated(q, n, b)
    requires if Abs(q) * Abs(b) == Abs(n) then r == q else r == if 0 < n <==> 0 < b then q + 1 else q - 1
    requires n != 0
    ensures IsAwayFromZero(r, n, b)
  {
    if r != q {
      assert Abs(r) == Abs(q) + 1;
      assert (Abs(q) + 1) * Abs(b) == Abs(q) * Abs(b) + Abs(b);
    }
  }

  /** A truncated quotient is exact in magnitude just when it is exact. */
  lemma ExactIff(q: int, n: int, b: int)
    requires b != 0 && IsTruncated(q, n, b)
    ensures q * b == n <==> Abs(q) * Abs(b) == Abs(n)
  {
  }

  lemma AbsProduct(a: int, b: int)
    ensures Abs(a) * Abs(b) == Abs(a * b)
  {
  }

  /** `divDown` is the floor of the exact quotient for every sign of both operands. */
  lemma DivDownFloors(a: int, b: int)
    requires b != 0
    ensures IsFloor(DivDown(a, b), a, b)
  {
    if 0 < b {
      FloorOfNegation(a, b);
      Floor(a, b);
      assert DivDown(a, b) == a / b;
    } else {
      FloorOfNegation(-a, -b);
      Floor(-a, -b);
      assert DivDown(a, b) == -a / -b;
      assert -a / -b * -b == -(-a / -b * b);
    }
  }

  // ----- Winding a Set down -----

  function DebtPayments(quantities: seq<int>, debt: int, supply: int): seq<int> {
    seq(|quantities|, i requires 0 <= i < |quantities| =>
      PreciseMulCeil(quantities[i], PreciseDivCeil(debt, supply)))
  }

  function AssetPayouts(quantities: seq<int>, assets: int, supply: int): seq<int>
    requires supply != 0
  {
    seq(|quantities|, i requires 0 <= i < |quantities| =>
      PreciseMul(quantities[i], PreciseDiv(assets, supply)))
  }

  lemma RateNonNegative(debt: int, supply: int)
    requires 0 <= debt && 0 < supply
    ensures 0 <= PreciseDivCeil(debt, supply)
  {
  }

  lemma Distribute(a: int, b: int, rate: int)
    ensures (a + b) * rate == a * rate + b * rate
  {
  }

  /** Every payment is the quantity times a rate, both rounded up, and every payout the same rounded down. */
  lemma PaymentsAndPayouts(quantities: seq<int>, debt: int, assets: int, supply: int, i: nat)
    requires 0 <= debt && 0 <= assets && 0 < supply && i < |quantities| && 0 <= quantities[i]
    ensures |DebtPayments(quantities, debt, supply)| == |AssetPayouts(quantities, assets, supply)| == |quantities|
    ensures exists rate ::
      && IsCeiling(rate, debt * PRECISE_UNIT, supply)
      && IsCeiling(DebtPayments(quantities, debt, supply)[i], quantities[i] * rate, PRECISE_UNIT)
    ensures exists rate ::
      && IsFloor(rate, assets * PRECISE_UNIT, supply)
      && IsFloor(AssetPayouts(quantities, assets, supply)[i], quantities[i] * rate, PRECISE_UNIT)
  {
    RateNonNegative(debt, supply);
    PreciseDivCeilIsCeiling(debt, supply);
    MulCeil(quantities[i], PreciseDivCeil(debt, supply));
    DivideFloor(assets, supply);
    MulFloor(quantities[i], PreciseDiv(assets, supply));
    hide PreciseMul, PreciseDiv, PreciseMulCeil, PreciseDivCeil;
    assert IsFloor(PreciseDiv(assets, supply), assets * PRECISE_UNIT, supply);
  }

  lemma {:induction false} PaymentsCover(quantities: seq<int>, debt: int, supply: int)
    requires 0 <= debt && 0 < supply
    requires forall i :: 0 <= i < |quantities| ==> 0 <= quantities[i]
    ensures Sum(quantities) * PreciseDivCeil(debt, supply) <= Sum(DebtPayments(quantities, debt, supply)) * PRECISE_UNIT
  {
    if quantities != [] {
      var n := |quantities| - 1;
      var rate := PreciseDivCeil(debt, supply);
      PaymentsCover(quantities[..n], debt, supply);
      assert DebtPayments(quantities, debt, supply)[..n] == DebtPayments(quantities[..n], debt, supply);
      RateNonNegative(debt, supply);
      MulCeil(quantities[n], rate);
      Distribute(Sum(quantities[..n]), quantities[n], rate);
    }
  }

  lemma {:induction false} PayoutsCovered(quantities: seq<int>, assets: int, supply: int)
    requires 0 <= assets && 0 < supply
    requires forall i :: 0 <= i < |quantities| ==> 0 <= quantities[i]
    ensures Sum(AssetPayouts(quantities, assets, supply)) * PRECISE_UNIT <= Sum(quantities) * PreciseDiv(assets, supply)
  {
    if quantities != [] {
      var n := |quantities| - 1;
      var rate := PreciseDiv(assets, supply);
      PayoutsCovered(quantities[..n], assets, supply);
      assert AssetPayouts(quantities, assets, supply)[..n] == AssetPayouts(quantities[..n], assets, supply);
      DivideFloor(assets, supply);
      MulFloor(quantities[n], rate);
      Distribute(Sum(quantities[..n]), quantities[n], rate);
    }
  }

  /** However the whole supply is split into redemptions, the rounded-up payments repay the
      debt in full and the rounded-down payouts never exceed the assets. */
  lemma WindDownIsSolvent(quantities: seq<int>, debt: int, assets: int, supply: int)
    requires 0 <= debt && 0 <= assets && 0 < supply
    requires forall i :: 0 <= i < |quantities| ==> 0 <= quantities[i]
    requires Sum(quantities) == supply
    ensures debt <= Sum(DebtPayments(quantities, debt, supply))
    ensures Sum(AssetPayouts(quantities, assets, supply)) <= assets
  {
    PaymentsCover(quantities, debt, supply);
    PreciseDivCeilIsCeiling(debt, supply);
    CancelLe(debt, Sum(DebtPayments(quantities, debt, supply)), PRECISE_UNIT);
    PayoutsCovered(quantities, assets, supply);
    DivideFloor(assets, supply);
    CancelLe(Sum(AssetPayouts(quantities, assets, supply)), assets, PRECISE_UNIT);
  }
}
