/** The quotes of a constant-product exchange with a 0.3% fee, as an instance of the venues that the
    estimator assumes. */
module ConstantProduct {
  import opened Arithmetic
  import opened BigNumbers
  import opened ExchangeIssuanceUtils
  import opened Types
  import opened Wrappers

  /** The WETH and the token held by a pair. */
  datatype Reserves = Reserves(weth: nat, token: nat)

  function AmountIn(r: Reserves, amountOut: int): Option<uint256> {
    if amountOut <= 0 || r.weth == 0 || r.token <= amountOut then None
    else
      var amount := r.weth * amountOut * 1000 / ((r.token - amountOut) * 997) + 1;
      if 0 <= amount <= MAX_UINT_256 then Some(amount) else None
  }

  function AmountOut(r: Reserves, amountIn: int): Option<uint256> {
    if amountIn <= 0 || r.weth == 0 || r.token == 0 then None
    else
      var amount := amountIn * 997 * r.token / (r.weth * 1000 + amountIn * 997);
      if 0 <= amount <= MAX_UINT_256 then Some(amount) else None
  }

  function PairVenue(hasPair: Address -> bool, reserves: Address -> Reserves): Venue {
    Venue(hasPair,
      (token, amount) => AmountIn(reserves(token), amount),
      (token, amount) => AmountOut(reserves(token), amount))
  }

  /** a * t / (w + a), the constant-product output for an input a after its fee, is below the
      reserve t and grows with a. */
  lemma OutputBelowReserve(a: int, t: int, w: int)
    requires 0 < a && 0 < t && 0 < w
    ensures 0 <= a * t / (w + a) < t
  {
  }

  lemma OutputGrowsWithInput(a: int, b: int, t: int, w: int)
    requires 0 < a <= b && 0 < t && 0 < w
    ensures a * t / (w + a) <= b * t / (w + b)
  {
    var q := a * t / (w + a);
    OutputBelowReserve(a, t, w);
    Floor(a * t, w + a);
    MulLe(q, t, b - a);
    assert q * (w + b) == q * (w + a) + q * (b - a);
    assert t * (b - a) == b * t - a * t;
    FloorGe(b * t, w + b, q);
  }

  lemma OutputGrows(r: Reserves, x: int, y: int)
    requires 0 < x <= y && 0 < r.weth && 0 < r.token
    ensures 0 <= x * 997 * r.token / (r.weth * 1000 + x * 997) <= y * 997 * r.token / (r.weth * 1000 + y * 997)
    ensures y * 997 * r.token / (r.weth * 1000 + y * 997) < r.token
  {
    OutputBelowReserve(x * 997, r.token, r.weth * 1000);
    OutputBelowReserve(y * 997, r.token, r.weth * 1000);
    OutputGrowsWithInput(x * 997, y * 997, r.token, r.weth * 1000);
  }

  lemma QuotedInputBuys(r: Reserves, x: int)
    requires 0 < x < r.token && 0 < r.weth
    ensures var cost := r.weth * x * 1000 / ((r.token - x) * 997) + 1;
      0 < cost && x <= cost * 997 * r.token / (r.weth * 1000 + cost * 997)
  {
    var n, d := r.weth * x * 1000, (r.token - x) * 997;
    MulLt(0, x, r.weth);
    Floor(n, d);
    var cost := n / d + 1;
    assert n < cost * d;
    assert cost * d == cost * 997 * r.token - x * (cost * 997);
    assert x * (r.weth * 1000 + cost * 997) == n + x * (cost * 997);
    FloorGe(cost * 997 * r.token, r.weth * 1000 + cost * 997, x);
  }

  /** Such an exchange quotes coherently, whatever its reserves of at most the largest uint256. */
  lemma PairVenueIsCoherent(hasPair: Address -> bool, reserves: Address -> Reserves)
    requires forall token :: reserves(token).token <= MAX_UINT_256
    ensures CoherentQuotes(PairVenue(hasPair, reserves))
  {
    var v := PairVenue(hasPair, reserves);
    forall token, x: int, y: int | x <= y && v.amountsOut(token, x).Some? && v.amountsOut(token, y).Some?
      ensures v.amountsOut(token, x).value <= v.amountsOut(token, y).value
    {
      OutputGrows(reserves(token), x, y);
    }
    forall token, x: int | v.amountsIn(token, x).Some?
      ensures v.amountsOut(token, v.amountsIn(token, x).value).Some?
      ensures x <= v.amountsOut(token, v.amountsIn(token, x).value).value
    {
      QuotedInputBuys(reserves(token), x);
      var cost := v.amountsIn(token, x).value;
      OutputGrows(reserves(token), cost, cost);
    }
  }
}
