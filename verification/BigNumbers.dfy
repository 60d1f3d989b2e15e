/** The part of the ethers BigNumber arithmetic whose rounding differs from Dafny's operators. */
module BigNumbers {
  import opened Arithmetic

  const PRECISE_UNIT: int := 1_000_000_000_000_000_000
  const ONE_YEAR_IN_SECONDS: int := 31_557_600
  const MAX_UINT_256: int :=
    0xffff_ffff_ffff_ffff_ffff_ffff_ffff_ffff_ffff_ffff_ffff_ffff_ffff_ffff_ffff_ffff

  type uint256 = x: int | 0 <= x <= MAX_UINT_256

  /** `BigNumber.div`: rounds toward zero. Division by zero throws, so callers exclude it. */
  function Div(a: int, b: int): int
    requires b != 0
  {
    if 0 < b then
      if 0 <= a then a / b else -(-a / b)
    else
      if 0 <= a then -(a / -b) else -a / -b
  }

  /** `BigNumber.mod`: never negative, and rejects a negative modulus. */
  function Mod(a: int, b: int): int
    requires 0 < b
  {
    a % b
  }

  ghost predicate SameSign(q: int, a: int, b: int) {
    q != 0 ==> (0 < q <==> (0 < a <==> 0 < b))
  }

  /** q is a / b with the fraction dropped: rounding toward zero. */
  ghost predicate IsTruncated(q: int, a: int, b: int) {
    SameSign(q, a, b) && Abs(q) * Abs(b) <= Abs(a) < Abs(q) * Abs(b) + Abs(b)
  }

  /** q is a / b with any fraction counted as one more: rounding away from zero. */
  ghost predicate IsAwayFromZero(q: int, a: int, b: int) {
    SameSign(q, a, b) && Abs(q) * Abs(b) - Abs(b) < Abs(a) <= Abs(q) * Abs(b)
  }

  /** q is a / b rounded toward minus infinity, whatever the sign of b. */
  ghost predicate IsFloor(q: int, a: int, b: int) {
    if 0 < b then q * b <= a < q * b + b else q * b + b < a <= q * b
  }

  /** q is a / b rounded toward plus infinity, whatever the sign of b. */
  ghost predicate IsCeiling(q: int, a: int, b: int) {
    if 0 < b then q * b - b < a <= q * b else q * b <= a < q * b - b
  }

  lemma DivTruncates(a: int, b: int)
    requires b != 0
    ensures IsTruncated(Div(a, b), a, b)
  {
    Floor(Abs(a), Abs(b));
    assert Abs(Div(a, b)) == Abs(a) / Abs(b);
  }

  /** Truncation leaves no choice: there is one such quotient. */
  lemma TruncatedIsDiv(q: int, a: int, b: int)
    requires b != 0
    ensures IsTruncated(q, a, b) <==> q == Div(a, b)
  {
    DivTruncates(a, b);
    if IsTruncated(q, a, b) {
      SameMagnitude(Abs(q), Abs(Div(a, b)), Abs(a), Abs(b));
    }
  }

  lemma SameMagnitude(q: int, p: int, n: int, d: int)
    requires 0 < d && q * d <= n < q * d + d && p * d <= n < p * d + d
    ensures q == p
  {
    CancelLt(q, p + 1, d);
    CancelLt(p, q + 1, d);
  }

  /** On non-negative operands truncation is the floor. */
  lemma DivFloor(a: int, b: int)
    requires 0 <= a && 0 < b
    ensures 0 <= Div(a, b)
    ensures Div(a, b) * b <= a < Div(a, b) * b + b
  {
    Floor(a, b);
  }

  /** The quotient is the greatest count of divisors that fits. */
  lemma QuotientLimit(n: int, d: int, q: int)
    requires 0 <= n && 0 < d
    ensures q * d <= n <==> q <= Div(n, d)
  {
    Floor(n, d);
    if q * d <= n {
      FloorGe(n, d, q);
    }
    if q <= n / d {
      MulLe(q, n / d, d);
    }
  }
}
