/** Facts about products, quotients and sums of integers that the other modules share. */
module Arithmetic {

  function Abs(x: int): nat {
    if x < 0 then -x else x
  }

  lemma MulLe(a: int, b: int, c: int)
    requires a <= b && 0 <= c
    ensures a * c <= b * c
  {
  }

  lemma MulLt(a: int, b: int, c: int)
    requires a < b && 0 < c
    ensures a * c < b * c
  {
  }

  lemma CancelLe(a: int, b: int, c: int)
    requires a * c <= b * c && 0 < c
    ensures a <= b
  {
  }

  lemma CancelLt(a: int, b: int, c: int)
    requires a * c < b * c && 0 <= c
    ensures a < b
  {
  }

  /** The quotient by a positive divisor is the greatest multiple count that fits. */
  lemma Floor(a: int, d: int)
    requires 0 < d
    ensures a / d * d <= a < a / d * d + d
    ensures 0 <= a ==> 0 <= a / d
  {
  }

  lemma FloorGe(a: int, d: int, k: int)
    requires 0 < d && k * d <= a
    ensures k <= a / d
  {
    Floor(a, d);
    CancelLt(k, a / d + 1, d);
  }

  lemma FloorLe(a: int, d: int, k: int)
    requires 0 < d && a < k * d + d
    ensures a / d <= k
  {
    Floor(a, d);
    CancelLt(a / d, k + 1, d);
  }

  lemma FloorMono(a: int, b: int, d: int)
    requires 0 < d && a <= b
    ensures a / d <= b / d
  {
    Floor(a, d);
    FloorGe(b, d, a / d);
  }

  /** If u/d <= q/k and total/supply <= k/q then u * total <= d * supply. */
  lemma CrossLe(u: int, d: int, total: int, supply: int, k: int, q: int)
    requires 0 < k && 0 <= d && 0 <= total
    requires u * k <= d * q && total * q <= supply * k
    ensures u * total <= d * supply
  {
  }

  lemma CrossLt(u: int, d: int, total: int, supply: int, k: int, q: int)
    requires 0 < k && 0 < d && 0 <= total
    requires d * q <= u * k && supply * k < total * q
    ensures d * supply < u * total
  {
  }

  /** A multiple of d that is small in magnitude is zero. */
  lemma SmallMultiple(k: int, d: int)
    requires -d < d * k < d
    ensures k == 0
  {
  }

  /** Flooring the negated numerator gives the negated ceiling. */
  lemma FloorOfNegation(n: int, d: int)
    requires 0 < d
    ensures n % d == 0 <==> -n % d == 0
    ensures n / d == if n % d == 0 then -(-n / d) else -(-n / d) - 1
  {
    var q, p := n / d, -n / d;
    assert n == d * q + n % d && -n == d * p + -n % d;
    assert d * (q + p) + n % d + -n % d == 0;
    if n % d == 0 || -n % d == 0 {
      SmallMultiple(q + p, d);
    } else {
      assert d * (q + p + 1) == d - n % d - -n % d;
      SmallMultiple(q + p + 1, d);
    }
  }

  /** The sum of a list, read from the right so that a loop extends it by one. */
  function Sum(s: seq<int>): int {
    if s == [] then 0 else Sum(s[..|s| - 1]) + s[|s| - 1]
  }

  lemma SumSnoc(s: seq<int>, x: int)
    ensures Sum(s + [x]) == Sum(s) + x
  {
  }

  lemma {:induction false} SumNonNegative(s: seq<int>)
    requires forall i :: 0 <= i < |s| ==> 0 <= s[i]
    ensures 0 <= Sum(s)
    ensures forall i :: 0 <= i < |s| ==> s[i] <= Sum(s)
  {
    if s != [] {
      var t := s[..|s| - 1];
      SumNonNegative(t);
      forall i | 0 <= i < |s| ensures s[i] <= Sum(s) {
        if i < |t| {
          assert s[i] == t[i];
        }
      }
    }
  }
}
