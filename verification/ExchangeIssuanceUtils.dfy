/** Estimating how many Sets an amount of ETH buys, and what an exact amount of Sets costs, over two
    exchanges that may or may not list each component. */
module ExchangeIssuanceUtils {
  import opened Arithmetic
  import opened BigNumbers
  import opened Types
  import opened Wrappers

  /** One exchange: which tokens it pairs with WETH, and its router's quotes. A quote is None when
      the router reverts. amountsIn(token, x) is the WETH needed to buy x of the token;
      amountsOut(token, x) is what x WETH buys. */
  datatype Venue = Venue(
    hasPair: Address -> bool,
    amountsIn: (Address, int) -> Option<uint256>,
    amountsOut: (Address, int) -> Option<uint256>)

  datatype Market = Market(uniswap: Venue, sushiswap: Venue, weth: Address)

  // ----- Quotes -----

  function QuoteIn(v: Venue, token: Address, amount: int): Option<uint256> {
    if v.hasPair(token) then v.amountsIn(token, amount) else Some(MAX_UINT_256)
  }

  function QuoteOut(v: Venue, token: Address, amount: int): Option<uint256> {
    if v.hasPair(token) then v.amountsOut(token, amount) else Some(0)
  }

  /** The WETH needed for an amount of a component at the cheaper exchange. */
  function GetInputAmountBestPrice(m: Market, token: Address, amount: int): Option<int> {
    if token != m.weth then
      var uni, sushi := QuoteIn(m.uniswap, token, amount), QuoteIn(m.sushiswap, token, amount);
      if uni.None? || sushi.None? then None
      else if sushi.value < uni.value then Some(sushi.value)
      else Some(uni.value)
    else Some(amount)
  }

  /** What an amount of WETH buys of a component at the better exchange. */
  function BestOutput(m: Market, token: Address, amount: int): Option<int> {
    if token != m.weth then
      var uni, sushi := QuoteOut(m.uniswap, token, amount), QuoteOut(m.sushiswap, token, amount);
      if uni.None? || sushi.None? then None
      else if uni.value > sushi.value then Some(uni.value)
      else Some(sushi.value)
    else Some(amount)
  }

  // ----- What the quotes mean -----

  /** An exchange answers when it does not list the token or does not revert. */
  predicate AnswersIn(v: Venue, token: Address, amount: int) {
    v.hasPair(token) ==> v.amountsIn(token, amount).Some?
  }

  predicate AnswersOut(v: Venue, token: Address, amount: int) {
    v.hasPair(token) ==> v.amountsOut(token, amount).Some?
  }

  /** price is the least quote of the exchanges that list the token, the largest uint256 if none does;
      WETH is its own price. */
  ghost predicate IsBestPrice(m: Market, token: Address, amount: int, price: int) {
    if token == m.weth then price == amount
    else
      && AnswersIn(m.uniswap, token, amount) && AnswersIn(m.sushiswap, token, amount)
      && (m.uniswap.hasPair(token) ==> price <= m.uniswap.amountsIn(token, amount).value)
      && (m.sushiswap.hasPair(token) ==> price <= m.sushiswap.amountsIn(token, amount).value)
      && price <= MAX_UINT_256
      && (|| price == MAX_UINT_256
          || (m.uniswap.hasPair(token) && price == m.uniswap.amountsIn(token, amount).value)
          || (m.sushiswap.hasPair(token) && price == m.sushiswap.amountsIn(token, amount).value))
  }

  /** output is the most that the exchanges that list the token sell, zero if none does; WETH buys
      itself. */
  ghost predicate IsBestOutput(m: Market, token: Address, amount: int, output: int) {
    if token == m.weth then output == amount
    else
      && AnswersOut(m.uniswap, token, amount) && AnswersOut(m.sushiswap, token, amount)
      && (m.uniswap.hasPair(token) ==> m.uniswap.amountsOut(token, amount).value <= output)
      && (m.sushiswap.hasPair(token) ==> m.sushiswap.amountsOut(token, amount).value <= output)
      && 0 <= output
      && (|| output == 0
          || (m.uniswap.hasPair(token) && output == m.uniswap.amountsOut(token, amount).value)
          || (m.sushiswap.hasPair(token) && output == m.sushiswap.amountsOut(token, amount).value))
  }

  /** The best price is found exactly when every exchange that lists the token answers, and is the least
      quote then. */
  lemma BestPriceIff(m: Market, token: Address, amount: int, price: int)
    ensures GetInputAmountBestPrice(m, token, amount) == Some(price) <==> IsBestPrice(m, token, amount, price)
    ensures GetInputAmountBestPrice(m, token, amount).Some?
      <==> token == m.weth || (AnswersIn(m.uniswap, token, amount) && AnswersIn(m.sushiswap, token, amount))
  {
  }

  /** The same of the best output and the greatest quote. */
  lemma BestOutputIff(m: Market, token: Address, amount: int, output: int)
    requires 0 <= amount
    ensures BestOutput(m, token, amount) == Some(output) <==> IsBestOutput(m, token, amount, output)
    ensures BestOutput(m, token, amount).Some?
      <==> token == m.weth || (AnswersOut(m.uniswap, token, amount) && AnswersOut(m.sushiswap, token, amount))
  {
  }

  // ----- What the estimator computes -----

  /** A Set's components with the amount of each that one Set holds. */
  datatype SetToken = SetToken(components: seq<Address>, units: Address -> nat)

  ghost predicate Priced(m: Market, s: SetToken, amounts: seq<int>)
    requires |amounts| <= |s.components|
  {
    forall i :: 0 <= i < |amounts| ==> GetInputAmountBestPrice(m, s.components[i], amounts[i]).Some?
  }

  /** The amounts of the components in one Set. */
  function Units(s: SetToken): seq<int> {
    seq(|s.components|, i requires 0 <= i < |s.components| => s.units(s.components[i]))
  }

  /** The amounts of the components needed to issue amountSet. */
  function Amounts(s: SetToken, amountSet: int): seq<int> {
    seq(|s.components|, i requires 0 <= i < |s.components| => Div(amountSet * s.units(s.components[i]), PRECISE_UNIT))
  }

  /** Each amount is the quantity of Sets times the component's unit, truncated after the product. */
  lemma AmountsTruncateProducts(s: SetToken, amountSet: int)
    ensures |Amounts(s, amountSet)| == |Units(s)| == |s.components|
    ensures forall i :: 0 <= i < |s.components| ==>
      && Units(s)[i] == s.units(s.components[i])
      && IsTruncated(Amounts(s, amountSet)[i], amountSet * s.units(s.components[i]), PRECISE_UNIT)
  {
    hide Div, IsTruncated;
    forall i | 0 <= i < |s.components|
      ensures IsTruncated(Amounts(s, amountSet)[i], amountSet * s.units(s.components[i]), PRECISE_UNIT)
    {
      DivTruncates(amountSet * s.units(s.components[i]), PRECISE_UNIT);
    }
  }

  /** The best price of each amount, in order. */
  ghost function Costs(m: Market, s: SetToken, amounts: seq<int>): (costs: seq<int>)
    requires |amounts| <= |s.components| && Priced(m, s, amounts)
    ensures |costs| == |amounts|
  {
    seq(|amounts|, i requires 0 <= i < |amounts| =>
      GetInputAmountBestPrice(m, s.components[i], amounts[i]).value)
  }

  /** The share of the input that goes to each component. */
  function Scaled(costs: seq<int>, ethInput: int, sumEth: int): (shares: seq<int>)
    requires sumEth != 0
    ensures |shares| == |costs|
  {
    seq(|costs|, i requires 0 <= i < |costs| => Div(costs[i] * ethInput, sumEth))
  }

  function ScaledEth(costs: seq<int>, ethInput: int): (shares: seq<int>)
    requires Sum(costs) != 0
    ensures |shares| == |costs|
  {
    Scaled(costs, ethInput, Sum(costs))
  }

  ghost predicate Sellable(m: Market, s: SetToken, scaled: seq<int>)
    requires |scaled| <= |s.components|
  {
    forall i :: 0 <= i < |scaled| ==> BestOutput(m, s.components[i], scaled[i]).Some?
  }

  /** The inputs on which no quote reverts and nothing is divided by zero. */
  ghost predicate Estimable(m: Market, s: SetToken, ethInput: int) {
    && Priced(m, s, Units(s))
    && (s.components != [] ==> Sum(Costs(m, s, Units(s))) != 0)
    && (s.components != [] ==> Sellable(m, s, ScaledEth(Costs(m, s, Units(s)), ethInput)))
    && (forall i :: 0 <= i < |s.components| ==> s.units(s.components[i]) != 0)
  }

  /** How many Sets the share of component i allows. */
  ghost function Potential(m: Market, s: SetToken, scaled: seq<int>, i: nat): int
    requires i < |scaled| <= |s.components|
    requires BestOutput(m, s.components[i], scaled[i]).Some? && s.units(s.components[i]) != 0
  {
    Div(BestOutput(m, s.components[i], scaled[i]).value * PRECISE_UNIT, s.units(s.components[i]))
  }

  /** q Sets need no more of component i than its share of the input buys. */
  ghost predicate Affordable(m: Market, s: SetToken, ethInput: int, i: nat, q: int)
    requires i < |s.components| && Estimable(m, s, ethInput)
  {
    q * s.units(s.components[i])
    <= BestOutput(m, s.components[i], ScaledEth(Costs(m, s, Units(s)), ethInput)[i]).value * PRECISE_UNIT
  }

  /** Component i does not allow one Set more than q. */
  ghost predicate Scarce(m: Market, s: SetToken, ethInput: int, i: nat, q: int)
    requires i < |s.components| && Estimable(m, s, ethInput)
  {
    !Affordable(m, s, ethInput, i, q + 1)
  }

  /** q is the greatest number of Sets, up to the largest uint256, that every component allows. */
  ghost predicate IsGreatestIssuable(m: Market, s: SetToken, ethInput: int, q: int)
    requires Estimable(m, s, ethInput)
  {
    && 0 <= q <= MAX_UINT_256
    && (forall i :: 0 <= i < |s.components| ==> Affordable(m, s, ethInput, i, q))
    && (q < MAX_UINT_256 ==> exists i :: 0 <= i < |s.components| && Scarce(m, s, ethInput, i, q))
  }

  lemma AffordableUpToPotential(m: Market, s: SetToken, ethInput: nat, i: nat, q: int)
    requires i < |s.components| && Estimable(m, s, ethInput)
    ensures Affordable(m, s, ethInput, i, q) <==> q <= Potential(m, s, ScaledEth(Costs(m, s, Units(s)), ethInput), i)
  {
    var scaled, unit := ScaledEth(Costs(m, s, Units(s)), ethInput), s.units(s.components[i]);
    ShareNonNegative(m, s, ethInput, i);
    OutputNonNegative(m, s.components[i], scaled[i]);
    var out := BestOutput(m, s.components[i], scaled[i]).value;
    QuotientLimit(out * PRECISE_UNIT, unit, q);
  }

  lemma ShareNonNegative(m: Market, s: SetToken, ethInput: nat, i: nat)
    requires i < |s.components| && Estimable(m, s, ethInput)
    ensures 0 < Sum(Costs(m, s, Units(s)))
    ensures 0 <= ScaledEth(Costs(m, s, Units(s)), ethInput)[i]
  {
    var costs := Costs(m, s, Units(s));
    CostsNonNegative(m, s, Units(s));
    MulLe(0, costs[i], ethInput);
    DivFloor(costs[i] * ethInput, Sum(costs));
  }

  lemma CostsNonNegative(m: Market, s: SetToken, amounts: seq<int>)
    requires |amounts| <= |s.components| && Priced(m, s, amounts)
    requires forall i :: 0 <= i < |amounts| ==> 0 <= amounts[i]
    ensures forall i :: 0 <= i < |amounts| ==> 0 <= Costs(m, s, amounts)[i]
    ensures 0 <= Sum(Costs(m, s, amounts))
  {
    SumNonNegative(Costs(m, s, amounts));
  }

  lemma OutputNonNegative(m: Market, token: Address, amount: int)
    requires 0 <= amount && BestOutput(m, token, amount).Some?
    ensures 0 <= BestOutput(m, token, amount).value
  {
  }

  // ----- What the passes mean -----

  /** No exchange that lists a component reverts on its amount. */
  ghost predicate AllAnswer(m: Market, s: SetToken, amounts: seq<int>)
    requires |amounts| == |s.components|
  {
    forall i :: 0 <= i < |amounts| ==>
      || s.components[i] == m.weth
      || (AnswersIn(m.uniswap, s.components[i], amounts[i]) && AnswersIn(m.sushiswap, s.components[i], amounts[i]))
  }

  ghost predicate ArePrices(costs: seq<int>, m: Market, s: SetToken, amounts: seq<int>)
    requires |amounts| == |s.components|
  {
    && |costs| == |amounts|
    && forall i :: 0 <= i < |amounts| ==> IsBestPrice(m, s.components[i], amounts[i], costs[i])
  }

  lemma PricesAreBest(m: Market, s: SetToken, amounts: seq<int>)
    requires |amounts| == |s.components|
    ensures Priced(m, s, amounts) <==> AllAnswer(m, s, amounts)
    ensures Priced(m, s, amounts) ==> ArePrices(Costs(m, s, amounts), m, s, amounts)
  {
    hide GetInputAmountBestPrice, IsBestPrice, AnswersIn;
    forall i | 0 <= i < |amounts|
      ensures GetInputAmountBestPrice(m, s.components[i], amounts[i]).Some? <==>
        || s.components[i] == m.weth
        || (AnswersIn(m.uniswap, s.components[i], amounts[i]) && AnswersIn(m.sushiswap, s.components[i], amounts[i]))
    {
      BestPriceIff(m, s.components[i], amounts[i], 0);
    }
    if Priced(m, s, amounts) {
      var costs := Costs(m, s, amounts);
      forall i | 0 <= i < |amounts| ensures IsBestPrice(m, s.components[i], amounts[i], costs[i]) {
        BestPriceIff(m, s.components[i], amounts[i], costs[i]);
      }
    }
  }

  /** Prices are unique, so a list of best prices is the list of costs. */
  lemma ArePricesAreCosts(costs: seq<int>, m: Market, s: SetToken, amounts: seq<int>)
    requires |amounts| == |s.components| && ArePrices(costs, m, s, amounts)
    ensures Priced(m, s, amounts) && costs == Costs(m, s, amounts)
  {
    hide GetInputAmountBestPrice, IsBestPrice;
    forall i | 0 <= i < |amounts|
      ensures GetInputAmountBestPrice(m, s.components[i], amounts[i]) == Some(costs[i])
    {
      BestPriceIff(m, s.components[i], amounts[i], costs[i]);
    }
  }

  // ----- What the estimate means -----

  /** q is an estimate for the input: for some prices, shares of the input and outputs of the components,
      each share is its price's part of the input, truncated, each output is what its share buys, and q is
      the greatest number of Sets, up to the largest uint256, that every output allows. */
  ghost predicate IsEstimate(m: Market, s: SetToken, ethInput: nat, q: int) {
    exists costs: seq<int>, shares: seq<int>, outs: seq<int> :: IsEstimateBy(m, s, ethInput, q, costs, shares, outs)
  }

  ghost predicate IsEstimateBy(
      m: Market, s: SetToken, ethInput: nat, q: int, costs: seq<int>, shares: seq<int>, outs: seq<int>)
  {
    && |costs| == |shares| == |outs| == |s.components|
    && (forall i :: 0 <= i < |s.components| ==>
          IsBestPrice(m, s.components[i], s.units(s.components[i]), costs[i]))
    && (s.components != [] ==> Sum(costs) != 0)
    && (forall i :: 0 <= i < |s.components| ==> IsTruncated(shares[i], costs[i] * ethInput, Sum(costs)))
    && (forall i :: 0 <= i < |s.components| ==> IsBestOutput(m, s.components[i], shares[i], outs[i]))
    && (forall i :: 0 <= i < |s.components| ==>
          s.units(s.components[i]) != 0 && q * s.units(s.components[i]) <= outs[i] * PRECISE_UNIT)
    && 0 <= q <= MAX_UINT_256
    && (q < MAX_UINT_256 ==> exists i :: 0 <= i < |outs| && outs[i] * PRECISE_UNIT < (q + 1) * s.units(s.components[i]))
  }

  ghost function Outputs(m: Market, s: SetToken, scaled: seq<int>): (outs: seq<int>)
    requires |scaled| == |s.components| && Sellable(m, s, scaled)
    ensures |outs| == |scaled|
  {
    seq(|scaled|, i requires 0 <= i < |scaled| => BestOutput(m, s.components[i], scaled[i]).value)
  }

  lemma EstimateIsEstimate(m: Market, s: SetToken, ethInput: nat, q: int)
    requires Estimable(m, s, ethInput) && IsGreatestIssuable(m, s, ethInput, q)
    ensures IsEstimate(m, s, ethInput, q)
  {
    hide Div, Sum, BestOutput, GetInputAmountBestPrice, IsBestPrice, IsBestOutput, IsTruncated;
    var costs := Costs(m, s, Units(s));
    PricesAreBest(m, s, Units(s));
    if s.components == [] {
      assert IsEstimateBy(m, s, ethInput, q, [], [], []);
    } else {
      var shares := ScaledEth(costs, ethInput);
      var outs := Outputs(m, s, shares);
      forall i | 0 <= i < |s.components|
        ensures IsTruncated(shares[i], costs[i] * ethInput, Sum(costs))
        ensures IsBestOutput(m, s.components[i], shares[i], outs[i])
        ensures q * s.units(s.components[i]) <= outs[i] * PRECISE_UNIT
      {
        DivTruncates(costs[i] * ethInput, Sum(costs));
        ShareNonNegative(m, s, ethInput, i);
        BestOutputIff(m, s.components[i], shares[i], outs[i]);
        assert Affordable(m, s, ethInput, i, q);
      }
      if q < MAX_UINT_256 {
        var k :| 0 <= k < |s.components| && Scarce(m, s, ethInput, k, q);
        assert outs[k] * PRECISE_UNIT < (q + 1) * s.units(s.components[k]);
      }
      assert IsEstimateBy(m, s, ethInput, q, costs, shares, outs);
    }
  }

  /** Where there is an estimate, no quote reverts and no divisor is zero. */
  lemma EstimateIsEstimable(m: Market, s: SetToken, ethInput: nat, q: int)
    requires IsEstimate(m, s, ethInput, q)
    ensures Estimable(m, s, ethInput)
  {
    hide Div, Sum, BestOutput, GetInputAmountBestPrice, IsBestPrice, IsBestOutput, IsTruncated;
    var costs, shares, outs :| IsEstimateBy(m, s, ethInput, q, costs, shares, outs);
    ArePricesAreCosts(costs, m, s, Units(s));
    CostsNonNegative(m, s, Units(s));
    if s.components != [] {
      var scaled := ScaledEth(costs, ethInput);
      forall i | 0 <= i < |scaled| ensures BestOutput(m, s.components[i], scaled[i]).Some? {
        TruncatedIsDiv(shares[i], costs[i] * ethInput, Sum(costs));
        ScaledNonNegative(costs, ethInput, i);
        BestOutputIff(m, s.components[i], shares[i], outs[i]);
      }
    }
  }

  lemma NoEstimateUnlessEstimable(m: Market, s: SetToken, ethInput: nat)
    ensures !Estimable(m, s, ethInput) ==> forall q :: !IsEstimate(m, s, ethInput, q)
  {
    hide Estimable, IsEstimate;
    forall q | IsEstimate(m, s, ethInput, q) ensures Estimable(m, s, ethInput) {
      EstimateIsEstimable(m, s, ethInput, q);
    }
  }

  lemma ScaledNonNegative(costs: seq<int>, ethInput: nat, i: nat)
    requires i < |costs| && 0 < Sum(costs) && 0 <= costs[i]
    ensures 0 <= ScaledEth(costs, ethInput)[i]
  {
    MulLe(0, costs[i], ethInput);
    DivFloor(costs[i] * ethInput, Sum(costs));
  }

  // ----- The estimator -----

  /** The first pass: price one Set's worth of every component and add the prices up. */
  method PriceComponents(m: Market, s: SetToken, amounts: seq<int>) returns (r: Result<(seq<int>, int)>)
    requires |amounts| == |s.components|
    ensures r.Ok? <==> Priced(m, s, amounts)
    ensures r.Ok? ==> r.value == (Costs(m, s, amounts), Sum(Costs(m, s, amounts)))
    ensures r.Err? ==> r.error == QuoteReverted
    ensures r.Ok? <==> AllAnswer(m, s, amounts)
    ensures r.Ok? ==> ArePrices(r.value.0, m, s, amounts) && r.value.1 == Sum(r.value.0)
  {
    PricesAreBest(m, s, amounts);
    hide GetInputAmountBestPrice, AllAnswer, ArePrices;
    var sumEth, amountEthForComponents := 0, [];
    for i := 0 to |s.components|
      invariant Priced(m, s, amounts[..i])
      invariant amountEthForComponents == Costs(m, s, amounts[..i])
      invariant sumEth == Sum(amountEthForComponents)
    {
      var quote := GetInputAmountBestPrice(m, s.components[i], amounts[i]);
      if quote.None? {
        return Err(QuoteReverted);
      }
      SumSnoc(amountEthForComponents, quote.value);
      amountEthForComponents := amountEthForComponents + [quote.value];
      sumEth := sumEth + quote.value;
    }
    assert amounts[..|s.components|] == amounts;
    return Ok((amountEthForComponents, sumEth));
  }

  /** Splits the input over the components in proportion to their prices, buys each at the better
      exchange, and returns the number of Sets the scarcest component allows. */
  method GetIssueSetForExactETH(m: Market, s: SetToken, ethInput: nat) returns (r: Result<int>)
    ensures r.Ok? <==> Estimable(m, s, ethInput)
    ensures !Priced(m, s, Units(s)) ==> r == Err(QuoteReverted)
    ensures s.components != [] && Priced(m, s, Units(s)) && Sum(Costs(m, s, Units(s))) == 0 ==> r == Err(DivisionByZero)
    ensures r.Ok? ==> IsGreatestIssuable(m, s, ethInput, r.value)
    ensures s.components == [] ==> r == Ok(MAX_UINT_256)
    ensures r.Ok? ==> IsEstimate(m, s, ethInput, r.value)
    ensures r.Err? ==> forall q :: !IsEstimate(m, s, ethInput, q)
  {
    NoEstimateUnlessEstimable(m, s, ethInput);
    hide IsEstimate, IsGreatestIssuable;
    hide Div, Sum, BestOutput, GetInputAmountBestPrice;
    var priced := PriceComponents(m, s, Units(s));
    if priced.Err? {
      return Err(priced.error);
    }
    var (costs, sumEth) := priced.value;
    CostsNonNegative(m, s, Units(s));
    ghost var scaled := if sumEth == 0 then costs else ScaledEth(costs, ethInput);
    var expectedOutput := MAX_UINT_256;
    ghost var scarcest := 0;
    for i := 0 to |s.components|
      invariant i != 0 ==> sumEth != 0
      invariant forall j :: 0 <= j < i ==>
        BestOutput(m, s.components[j], scaled[j]).Some? && s.units(s.components[j]) != 0
      invariant forall j :: 0 <= j < i ==> expectedOutput <= Potential(m, s, scaled, j)
      invariant 0 <= expectedOutput <= MAX_UINT_256
      invariant expectedOutput < MAX_UINT_256 ==>
        0 <= scarcest < i && expectedOutput == Potential(m, s, scaled, scarcest)
    {
      var unit := s.units(s.components[i]);
      if sumEth == 0 {
        return Err(DivisionByZero);
      }
      var scaledEth := Div(costs[i] * ethInput, sumEth);
      assert scaledEth == scaled[i];
      var amountComponentOut := BestOutput(m, s.components[i], scaledEth);
      if amountComponentOut.None? {
        return Err(QuoteReverted);
      }
      if unit == 0 {
        return Err(DivisionByZero);
      }
      PotentialNonNegative(m, s, costs, ethInput, i);
      var potentialSetTokenOut := Div(amountComponentOut.value * PRECISE_UNIT, unit);
      if potentialSetTokenOut < expectedOutput {
        expectedOutput := potentialSetTokenOut;
        scarcest := i;
      }
    }
    assert Estimable(m, s, ethInput);
    LeastPotentialIsGreatestIssuable(m, s, ethInput, expectedOutput, scarcest);
    EstimateIsEstimate(m, s, ethInput, expectedOutput);
    return Ok(expectedOutput);
  }

  lemma PotentialNonNegative(m: Market, s: SetToken, costs: seq<int>, ethInput: nat, i: nat)
    requires i < |costs| == |s.components| && 0 < Sum(costs) && 0 <= costs[i]
    requires BestOutput(m, s.components[i], ScaledEth(costs, ethInput)[i]).Some? && s.units(s.components[i]) != 0
    ensures 0 <= Potential(m, s, ScaledEth(costs, ethInput), i)
  {
    MulLe(0, costs[i], ethInput);
    DivFloor(costs[i] * ethInput, Sum(costs));
    var scaled := ScaledEth(costs, ethInput)[i];
    OutputNonNegative(m, s.components[i], scaled);
    DivFloor(BestOutput(m, s.components[i], scaled).value * PRECISE_UNIT, s.units(s.components[i]));
  }

  lemma LeastPotentialIsGreatestIssuable(m: Market, s: SetToken, ethInput: nat, q: int, scarcest: nat)
    requires Estimable(m, s, ethInput) && 0 <= q <= MAX_UINT_256
    requires forall j :: 0 <= j < |s.components| ==>
      q <= Potential(m, s, ScaledEth(Costs(m, s, Units(s)), ethInput), j)
    requires q < MAX_UINT_256 ==>
      scarcest < |s.components| && q == Potential(m, s, ScaledEth(Costs(m, s, Units(s)), ethInput), scarcest)
    ensures IsGreatestIssuable(m, s, ethInput, q)
  {
    hide Div, BestOutput, GetInputAmountBestPrice, Sum, Costs, ScaledEth, Potential, Affordable;
    forall i | 0 <= i < |s.components| ensures Affordable(m, s, ethInput, i, q) {
      AffordableUpToPotential(m, s, ethInput, i, q);
    }
    if q < MAX_UINT_256 {
      AffordableUpToPotential(m, s, ethInput, scarcest, q + 1);
      assert Scarce(m, s, ethInput, scarcest, q);
    }
  }

  /** cost is the sum of the best prices of the component amounts that amountSet needs, each truncated. */
  ghost predicate IsCost(m: Market, s: SetToken, amountSet: int, cost: int) {
    exists amounts: seq<int>, costs: seq<int> :: IsCostBy(m, s, amountSet, cost, amounts, costs)
  }

  ghost predicate IsCostBy(m: Market, s: SetToken, amountSet: int, cost: int, amounts: seq<int>, costs: seq<int>) {
    && |amounts| == |s.components|
    && (forall i :: 0 <= i < |amounts| ==>
          IsTruncated(amounts[i], amountSet * s.units(s.components[i]), PRECISE_UNIT))
    && ArePrices(costs, m, s, amounts)
    && cost == Sum(costs)
  }

  lemma CostIff(m: Market, s: SetToken, amountSet: int)
    ensures Priced(m, s, Amounts(s, amountSet)) ==> IsCost(m, s, amountSet, Sum(Costs(m, s, Amounts(s, amountSet))))
    ensures !Priced(m, s, Amounts(s, amountSet)) ==> forall cost :: !IsCost(m, s, amountSet, cost)
  {
    hide Div, Sum, GetInputAmountBestPrice, IsTruncated, ArePrices;
    var expected := Amounts(s, amountSet);
    AmountsTruncateProducts(s, amountSet);
    PricesAreBest(m, s, expected);
    if Priced(m, s, expected) {
      assert IsCostBy(m, s, amountSet, Sum(Costs(m, s, expected)), expected, Costs(m, s, expected));
    }
    forall cost | IsCost(m, s, amountSet, cost) ensures Priced(m, s, expected) {
      CostIsPriced(m, s, amountSet, cost);
    }
  }

  lemma CostIsPriced(m: Market, s: SetToken, amountSet: int, cost: int)
    requires IsCost(m, s, amountSet, cost)
    ensures Priced(m, s, Amounts(s, amountSet))
  {
    hide Div, Sum, GetInputAmountBestPrice, IsTruncated, ArePrices;
    var amounts, costs :| IsCostBy(m, s, amountSet, cost, amounts, costs);
    ArePricesAreCosts(costs, m, s, amounts);
    forall i | 0 <= i < |amounts| ensures amounts[i] == Amounts(s, amountSet)[i] {
      TruncatedIsDiv(amounts[i], amountSet * s.units(s.components[i]), PRECISE_UNIT);
    }
    assert amounts == Amounts(s, amountSet);
  }

  /** The ETH that an exact amount of Sets costs at the best prices. */
  method GetIssueExactSetFromETH(m: Market, s: SetToken, amountSet: int) returns (r: Result<int>)
    ensures r.Ok? <==> Priced(m, s, Amounts(s, amountSet))
    ensures r.Ok? ==> r.value == Sum(Costs(m, s, Amounts(s, amountSet)))
    ensures r.Err? ==> r.error == QuoteReverted
    ensures r.Ok? ==> IsCost(m, s, amountSet, r.value)
    ensures r.Err? ==> forall cost :: !IsCost(m, s, amountSet, cost)
  {
    CostIff(m, s, amountSet);
    hide Div, GetInputAmountBestPrice, IsCost;
    var sumEth := 0;
    ghost var amounts := Amounts(s, amountSet);
    for i := 0 to |s.components|
      invariant Priced(m, s, amounts[..i])
      invariant sumEth == Sum(Costs(m, s, amounts[..i]))
    {
      var componentAmount := Div(amountSet * s.units(s.components[i]), PRECISE_UNIT);
      var ethAmount := GetInputAmountBestPrice(m, s.components[i], componentAmount);
      if ethAmount.None? {
        return Err(QuoteReverted);
      }
      assert Costs(m, s, amounts[..i + 1]) == Costs(m, s, amounts[..i]) + [ethAmount.value];
      SumSnoc(Costs(m, s, amounts[..i]), ethAmount.value);
      sumEth := sumEth + ethAmount.value;
    }
    assert amounts[..|s.components|] == amounts;
    return Ok(sumEth);
  }

  // ----- The split of the input -----

  lemma {:induction false} ScaledSum(costs: seq<int>, ethInput: nat, sumEth: int)
    requires 0 < sumEth
    requires forall i :: 0 <= i < |costs| ==> 0 <= costs[i]
    ensures var spent := Sum(Scaled(costs, ethInput, sumEth));
      && spent * sumEth <= Sum(costs) * ethInput <= (spent + |costs|) * sumEth
      && (costs != [] ==> Sum(costs) * ethInput < (spent + |costs|) * sumEth)
  {
    if costs == [] {
      assert Sum(costs) == Sum(Scaled(costs, ethInput, sumEth)) == 0;
    } else {
      hide Div, Scaled, Sum;
      var n := |costs| - 1;
      var share := Div(costs[n] * ethInput, sumEth);
      ScaledSum(costs[..n], ethInput, sumEth);
      ScaledSnoc(costs, ethInput, sumEth);
      SumSnoc(Scaled(costs[..n], ethInput, sumEth), share);
      SumSnoc(costs[..n], costs[n]);
      assert costs == costs[..n] + [costs[n]];
      MulLe(0, costs[n], ethInput);
      DivFloor(costs[n] * ethInput, sumEth);
      SplitStep(Sum(Scaled(costs[..n], ethInput, sumEth)), share, Sum(costs[..n]), costs[n], n, sumEth, ethInput);
    }
  }

  lemma ScaledSnoc(costs: seq<int>, ethInput: nat, sumEth: int)
    requires 0 < sumEth && costs != []
    ensures var n := |costs| - 1;
      Scaled(costs, ethInput, sumEth) == Scaled(costs[..n], ethInput, sumEth) + [Div(costs[n] * ethInput, sumEth)]
  {
  }

  lemma SplitStep(a: int, x: int, c: int, y: int, n: int, total: int, eth: int)
    requires a * total <= c * eth <= (a + n) * total
    requires x * total <= y * eth < x * total + total
    ensures (a + x) * total <= (c + y) * eth < (a + x + (n + 1)) * total
  {
  }

  lemma PositiveSumNonEmpty(costs: seq<int>)
    requires Sum(costs) != 0
    ensures costs != []
  {
  }

  /** The split never spends more than the input, and leaves less than one wei per component. */
  lemma SplitSpendsTheInput(costs: seq<int>, ethInput: nat)
    requires 0 < Sum(costs)
    requires forall i :: 0 <= i < |costs| ==> 0 <= costs[i]
    ensures Sum(ScaledEth(costs, ethInput)) <= ethInput < Sum(ScaledEth(costs, ethInput)) + |costs|
  {
    PositiveSumNonEmpty(costs);
    SplitWith(costs, ethInput, Sum(costs), Sum(ScaledEth(costs, ethInput)));
  }

  lemma SplitWith(costs: seq<int>, ethInput: nat, total: int, spent: int)
    requires 0 < total == Sum(costs) && costs != []
    requires spent == Sum(Scaled(costs, ethInput, total))
    requires forall i :: 0 <= i < |costs| ==> 0 <= costs[i]
    ensures spent <= ethInput < spent + |costs|
  {
    hide *;
    ScaledSum(costs, ethInput, total);
    SplitBounds(spent, |costs|, total, ethInput);
  }

  lemma SplitBounds(a: int, n: nat, total: int, eth: int)
    requires 0 < total && a * total <= total * eth < (a + n) * total
    ensures a <= eth < a + n
  {
  }

  // ----- What a budget buys -----

  /** Buying is possible and its quotes are coherent: spending the quoted input, or more, buys at
      least the amount that was quoted. */
  ghost predicate CoherentQuotes(v: Venue) {
    && (forall token, x: int, y: int ::
          x <= y && v.amountsOut(token, x).Some? && v.amountsOut(token, y).Some? ==>
            v.amountsOut(token, x).value <= v.amountsOut(token, y).value)
    && (forall token, x: int :: v.amountsIn(token, x).Some? ==>
          var cost := v.amountsIn(token, x).value;
          v.amountsOut(token, cost).Some? && x <= v.amountsOut(token, cost).value)
  }

  ghost predicate Listed(m: Market, s: SetToken) {
    forall i :: 0 <= i < |s.components| ==>
      s.components[i] == m.weth || m.uniswap.hasPair(s.components[i]) || m.sushiswap.hasPair(s.components[i])
  }

  /** No exchange that lists the token quotes less than the best price, and one of them quotes it
      unless the price is the largest uint256. */
  lemma BestPriceIsCheapest(m: Market, token: Address, amount: int)
    requires token != m.weth && GetInputAmountBestPrice(m, token, amount).Some?
    ensures var price := GetInputAmountBestPrice(m, token, amount).value;
      && (forall v :: v == m.uniswap || v == m.sushiswap ==> v.hasPair(token) ==>
            v.amountsIn(token, amount).Some? && price <= v.amountsIn(token, amount).value)
      && (price == MAX_UINT_256
          || (m.uniswap.hasPair(token) && m.uniswap.amountsIn(token, amount) == Some(price))
          || (m.sushiswap.hasPair(token) && m.sushiswap.amountsIn(token, amount) == Some(price)))
  {
  }

  /** No exchange that lists the token sells more of it than the best output, and one of them sells
      that much unless it is nothing. */
  lemma BestOutputIsMost(m: Market, token: Address, amount: int)
    requires token != m.weth && BestOutput(m, token, amount).Some?
    ensures var output := BestOutput(m, token, amount).value;
      && (forall v :: v == m.uniswap || v == m.sushiswap ==> v.hasPair(token) ==>
            v.amountsOut(token, amount).Some? && v.amountsOut(token, amount).value <= output)
      && (output == 0
          || (m.uniswap.hasPair(token) && m.uniswap.amountsOut(token, amount) == Some(output))
          || (m.sushiswap.hasPair(token) && m.sushiswap.amountsOut(token, amount) == Some(output)))
  {
  }

  /** One Set costs what the first pass adds up. */
  lemma OneSetAmounts(s: SetToken)
    ensures Amounts(s, PRECISE_UNIT) == Units(s)
  {
  }

  /** Spending at least the best price of an amount buys at least that amount, although the price
      is the cheaper venue's and the purchase is made at the better one. */
  lemma BestPriceSuffices(m: Market, token: Address, amount: int, spent: int)
    requires CoherentQuotes(m.uniswap) && CoherentQuotes(m.sushiswap)
    requires token == m.weth || m.uniswap.hasPair(token) || m.sushiswap.hasPair(token)
    requires GetInputAmountBestPrice(m, token, amount).Some? && BestOutput(m, token, spent).Some?
    requires GetInputAmountBestPrice(m, token, amount).value <= spent
    ensures amount <= BestOutput(m, token, spent).value
  {
  }

  /** With a budget of at least what an exact Set is quoted to cost, the estimator promises at least one. */
  lemma BudgetForOneSetYieldsOne(m: Market, s: SetToken, ethInput: nat, q: int)
    requires CoherentQuotes(m.uniswap) && CoherentQuotes(m.sushiswap) && Listed(m, s)
    requires Estimable(m, s, ethInput) && IsGreatestIssuable(m, s, ethInput, q)
    requires Priced(m, s, Amounts(s, PRECISE_UNIT)) && Sum(Costs(m, s, Amounts(s, PRECISE_UNIT))) <= ethInput
    ensures PRECISE_UNIT <= q
  {
    hide Div, BestOutput, GetInputAmountBestPrice, Sum, Costs, ScaledEth, Potential, Affordable;
    if q < MAX_UINT_256 {
      var k :| 0 <= k < |s.components| && Scarce(m, s, ethInput, k, q);
      AffordableUpToPotential(m, s, ethInput, k, q + 1);
      OneSetAmounts(s);
      ShareBuysOneSet(m, s, ethInput, k);
    }
  }

  lemma ShareBuysOneSet(m: Market, s: SetToken, ethInput: nat, k: nat)
    requires CoherentQuotes(m.uniswap) && CoherentQuotes(m.sushiswap) && Listed(m, s)
    requires Estimable(m, s, ethInput) && k < |s.components|
    requires Sum(Costs(m, s, Units(s))) <= ethInput
    ensures PRECISE_UNIT <= Potential(m, s, ScaledEth(Costs(m, s, Units(s)), ethInput), k)
  {
    hide Div, BestOutput, GetInputAmountBestPrice, Sum;
    var costs, unit := Costs(m, s, Units(s)), s.units(s.components[k]);
    CostsNonNegative(m, s, Units(s));
    ShareCoversCost(costs, ethInput, k);
    BestPriceSuffices(m, s.components[k], unit, ScaledEth(costs, ethInput)[k]);
    var out := BestOutput(m, s.components[k], ScaledEth(costs, ethInput)[k]).value;
    MulLe(unit, out, PRECISE_UNIT);
    QuotientLimit(out * PRECISE_UNIT, unit, PRECISE_UNIT);
  }

  lemma ShareCoversCost(costs: seq<int>, ethInput: nat, k: nat)
    requires k < |costs| && 0 < Sum(costs) <= ethInput && 0 <= costs[k]
    ensures costs[k] <= ScaledEth(costs, ethInput)[k]
  {
    MulLe(Sum(costs), ethInput, costs[k]);
    FloorGe(costs[k] * ethInput, Sum(costs), costs[k]);
  }

  /** A component that no exchange lists makes the estimate zero, whatever the budget. */
  lemma UnlistedComponentYieldsNothing(m: Market, s: SetToken, ethInput: nat, q: int)
    requires Estimable(m, s, ethInput) && IsGreatestIssuable(m, s, ethInput, q)
    requires !Listed(m, s)
    ensures q == 0
  {
    var k :| 0 <= k < |s.components| && s.components[k] != m.weth
      && !m.uniswap.hasPair(s.components[k]) && !m.sushiswap.hasPair(s.components[k]);
    assert Affordable(m, s, ethInput, k, q);
    if 1 <= q {
      MulLe(1, q, s.units(s.components[k]));
    }
  }

  /** A larger budget never promises fewer Sets. */
  lemma EstimateGrowsWithBudget(m: Market, s: SetToken, less: nat, more: nat, q: int, r: int)
    requires CoherentQuotes(m.uniswap) && CoherentQuotes(m.sushiswap)
    requires less <= more
    requires Estimable(m, s, less) && IsGreatestIssuable(m, s, less, q)
    requires Estimable(m, s, more) && IsGreatestIssuable(m, s, more, r)
    ensures q <= r
  {
    hide Div, BestOutput, GetInputAmountBestPrice, Sum, Costs, ScaledEth, Potential, Affordable;
    if r < MAX_UINT_256 {
      var k :| 0 <= k < |s.components| && Scarce(m, s, more, k, r);
      AffordableUpToPotential(m, s, less, k, q);
      AffordableUpToPotential(m, s, more, k, r + 1);
      PotentialGrows(m, s, less, more, k);
    }
  }

  lemma PotentialGrows(m: Market, s: SetToken, less: nat, more: nat, k: nat)
    requires CoherentQuotes(m.uniswap) && CoherentQuotes(m.sushiswap)
    requires less <= more && Estimable(m, s, less) && Estimable(m, s, more) && k < |s.components|
    ensures var costs := Costs(m, s, Units(s));
      Potential(m, s, ScaledEth(costs, less), k) <= Potential(m, s, ScaledEth(costs, more), k)
  {
    hide Sum, BestOutput, GetInputAmountBestPrice;
    var costs, token := Costs(m, s, Units(s)), s.components[k];
    CostsNonNegative(m, s, Units(s));
    ShareGrows(costs, less, more, k);
    var x, y := ScaledEth(costs, less)[k], ScaledEth(costs, more)[k];
    OutputMonotone(m, token, x, y);
    OutputNonNegative(m, token, x);
    var low, high := BestOutput(m, token, x).value, BestOutput(m, token, y).value;
    FloorMono(low * PRECISE_UNIT, high * PRECISE_UNIT, s.units(token));
  }

  lemma ShareGrows(costs: seq<int>, less: nat, more: nat, k: nat)
    requires k < |costs| && 0 < Sum(costs) && 0 <= costs[k] && less <= more
    ensures 0 <= ScaledEth(costs, less)[k] <= ScaledEth(costs, more)[k]
  {
    MulLe(0, less, costs[k]);
    MulLe(less, more, costs[k]);
    Floor(costs[k] * less, Sum(costs));
    FloorMono(costs[k] * less, costs[k] * more, Sum(costs));
  }

  lemma OutputMonotone(m: Market, token: Address, x: int, y: int)
    requires CoherentQuotes(m.uniswap) && CoherentQuotes(m.sushiswap)
    requires x <= y && BestOutput(m, token, x).Some? && BestOutput(m, token, y).Some?
    ensures BestOutput(m, token, x).value <= BestOutput(m, token, y).value
  {
  }
}
