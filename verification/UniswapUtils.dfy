/** Liquidity of a Uniswap V2 pair: minting, the value of a share, rebalancing, and the square root
    of the first deposit. Comparisons are the intended ones on integers; UniswapAsEvaluated has the
    same functions with the comparisons that JavaScript makes. */
module UniswapUtils {
  import opened Arithmetic
  import opened BigNumbers
  import opened MathUtils
  import opened Types
  import opened Wrappers

  const MINIMUM_LIQUIDITY: int := 1000

  // ----- Square root -----

  /** One Babylonian step from x never lands below the root. */
  lemma BabylonianStep(value: int, x: int, y: int)
    requires 0 <= value && 0 < x && y == (value / x + x) / 2
    ensures value < (y + 1) * (y + 1)
  {
    var q := value / x;
    Floor(value, x);
    assert (q + 1) * x == q * x + x;
    FourProductsAtMostSquare(q + 1, x);
    HalfSumSquared(q + 1 + x, y + 1);
  }

  lemma HalfSumSquared(s: int, h: int)
    requires 0 <= s <= 2 * h
    ensures s * s <= 4 * (h * h)
  {
  }

  lemma FourProductsAtMostSquare(a: int, b: int)
    ensures 4 * (a * b) <= (a + b) * (a + b)
  {
    assert (a + b) * (a + b) - 4 * (a * b) == (a - b) * (a - b);
    SquareNonNegative(a - b);
  }

  lemma SquareNonNegative(a: int)
    ensures 0 <= a * a
  {
  }

  /** z is the greatest integer whose square fits. */
  ghost predicate IsRoot(z: int, value: int) {
    0 <= z && z * z <= value < (z + 1) * (z + 1)
  }

  /** The integer square root: the greatest z whose square fits. Anything negative gives one. */
  method Sqrt(value: int) returns (z: int)
    ensures 0 <= value ==> IsRoot(z, value)
    ensures value < 0 ==> z == 1
  {
    z := value;
    if value > 3 {
      var x := Div(value, 2) + 1;
      FirstGuess(value, x);
      while x < z
        invariant 0 < x && 0 < z
        invariant (z == value && x < z) || x == (value / z + z) / 2
        invariant value < (x + 1) * (x + 1) && value < (z + 1) * (z + 1)
        decreases z
      {
        z := x;
        x := Div(Div(value, x) + x, 2);
        Floor(value, z);
        BabylonianStep(value, z, x);
        NextGuessPositive(value, z, x);
      }
      StoppedAtRoot(value, z, x);
    } else if value != 0 {
      z := 1;
    }
  }

  lemma FirstGuess(value: int, x: int)
    requires 3 < value && x == value / 2 + 1
    ensures 0 < x < value
    ensures value < (x + 1) * (x + 1) && value < (value + 1) * (value + 1)
  {
  }

  lemma NextGuessPositive(value: int, z: int, x: int)
    requires 3 < value && 0 < z && x == (value / z + z) / 2
    ensures 0 < x
  {
  }

  lemma StoppedAtRoot(value: int, z: int, x: int)
    requires 0 < z <= x && x == (value / z + z) / 2
    ensures z * z <= value
  {
  }

  // ----- Liquidity -----

  datatype Pool = Pool(reserve0: int, reserve1: int, totalSupply: int)

  /** The liquidity tokens minted for a deposit of both assets. */
  method CalculateLPTokensIssued(pool: Pool, amountOne: nat, amountTwo: nat) returns (r: Result<int>)
    ensures r.Err? <==> pool.totalSupply != 0 && (pool.reserve0 == 0 || pool.reserve1 == 0)
    ensures r.Ok? && pool.totalSupply != 0 ==> r.value == ProportionalLiquidity(pool, amountOne, amountTwo)
    ensures r.Ok? && pool.totalSupply == 0 ==> IsRoot(r.value + MINIMUM_LIQUIDITY, amountOne * amountTwo)
  {
    var liquidity;
    if pool.totalSupply == 0 {
      MulLe(0, amountOne, amountTwo);
      var root := Sqrt(amountOne * amountTwo);
      liquidity := root - MINIMUM_LIQUIDITY;
    } else {
      if pool.reserve0 == 0 || pool.reserve1 == 0 {
        return Err(DivisionByZero);
      }
      liquidity := Min(
        Div(amountOne * pool.totalSupply, pool.reserve0),
        Div(amountTwo * pool.totalSupply, pool.reserve1));
    }
    return Ok(liquidity);
  }

  function ProportionalLiquidity(pool: Pool, amountOne: int, amountTwo: int): int
    requires pool.reserve0 != 0 && pool.reserve1 != 0
  {
    Min(Div(amountOne * pool.totalSupply, pool.reserve0), Div(amountTwo * pool.totalSupply, pool.reserve1))
  }

  /** What a balance of liquidity tokens is worth in each asset. */
  function CalculateTokensInReserve(pool: Pool, lpTokenBalance: int): (int, int)
    requires pool.totalSupply != 0
  {
    (PreciseMul(PreciseDiv(pool.reserve0, pool.totalSupply), lpTokenBalance),
     PreciseMul(PreciseDiv(pool.reserve1, pool.totalSupply), lpTokenBalance))
  }

  predicate Live(pool: Pool) {
    0 < pool.reserve0 && 0 < pool.reserve1 && 0 < pool.totalSupply
  }

  function AfterDeposit(pool: Pool, amountOne: int, amountTwo: int, liquidity: int): Pool {
    Pool(pool.reserve0 + amountOne, pool.reserve1 + amountTwo, pool.totalSupply + liquidity)
  }

  lemma LiquidityAtMostShare(pool: Pool, amountOne: nat, amountTwo: nat)
    requires Live(pool)
    ensures var liquidity := ProportionalLiquidity(pool, amountOne, amountTwo);
      && 0 <= liquidity
      && liquidity * pool.reserve0 <= amountOne * pool.totalSupply
      && liquidity * pool.reserve1 <= amountTwo * pool.totalSupply
      && (amountOne * pool.totalSupply < (liquidity + 1) * pool.reserve0
          || amountTwo * pool.totalSupply < (liquidity + 1) * pool.reserve1)
  {
    MulLe(0, amountOne, pool.totalSupply);
    MulLe(0, amountTwo, pool.totalSupply);
    var l0 := Div(amountOne * pool.totalSupply, pool.reserve0);
    var l1 := Div(amountTwo * pool.totalSupply, pool.reserve1);
    DivFloor(amountOne * pool.totalSupply, pool.reserve0);
    DivFloor(amountTwo * pool.totalSupply, pool.reserve1);
    var liquidity := Min(l0, l1);
    MulLe(liquidity, l0, pool.reserve0);
    MulLe(liquidity, l1, pool.reserve1);
  }

  /** share is a balance's part of a reserve: the reserve for each token, truncated, times the balance,
      truncated. */
  ghost predicate IsShareOf(share: int, reserve: int, totalSupply: int, balance: int) {
    exists rate ::
      && IsTruncated(rate, reserve * PRECISE_UNIT, totalSupply)
      && IsTruncated(share, rate * balance, PRECISE_UNIT)
  }

  /** A balance is valued in both assets, in order, each at its part of that reserve. */
  lemma TokensInReserveAreShares(pool: Pool, lpTokenBalance: int)
    requires pool.totalSupply != 0
    ensures IsShareOf(
      CalculateTokensInReserve(pool, lpTokenBalance).0, pool.reserve0, pool.totalSupply, lpTokenBalance)
    ensures IsShareOf(
      CalculateTokensInReserve(pool, lpTokenBalance).1, pool.reserve1, pool.totalSupply, lpTokenBalance)
  {
    hide PreciseMul, PreciseDiv, IsTruncated;
    PreciseDivTruncates(pool.reserve0, pool.totalSupply);
    PreciseMulTruncates(PreciseDiv(pool.reserve0, pool.totalSupply), lpTokenBalance);
    PreciseDivTruncates(pool.reserve1, pool.totalSupply);
    PreciseMulTruncates(PreciseDiv(pool.reserve1, pool.totalSupply), lpTokenBalance);
  }

  /** The value of a balance is its exact share of the reserve, less than one wei and one wei for
      each 10^18 of the balance lost. */
  lemma ShareAtMostExact(reserve: int, totalSupply: int, balance: int)
    requires 0 <= reserve && 0 < totalSupply && 0 <= balance
    ensures var share := PreciseMul(PreciseDiv(reserve, totalSupply), balance);
      && 0 <= share && share * totalSupply <= reserve * balance
      && reserve * balance * PRECISE_UNIT <= (share + 1) * totalSupply * PRECISE_UNIT + totalSupply * balance
  {
    var rate := PreciseDiv(reserve, totalSupply);
    DivideFloor(reserve, totalSupply);
    MulFloor(rate, balance);
    CrossLe(PreciseMul(rate, balance), balance, totalSupply, reserve, PRECISE_UNIT, rate);
    ShareTight(PreciseMul(rate, balance), rate, reserve, totalSupply, balance, PRECISE_UNIT);
  }

  lemma ShareTight(share: int, rate: int, reserve: int, supply: int, balance: int, u: int)
    requires 0 < supply && 0 <= balance
    requires reserve * u <= rate * supply + supply && rate * balance <= share * u + u
    ensures reserve * balance * u <= (share + 1) * supply * u + supply * balance
  {
  }

  /** Depositing and valuing the liquidity received never shows a profit in either asset. */
  lemma DepositRoundTripNeverProfits(pool: Pool, amountOne: nat, amountTwo: nat)
    requires Live(pool)
    ensures var liquidity := ProportionalLiquidity(pool, amountOne, amountTwo);
      var after := AfterDeposit(pool, amountOne, amountTwo, liquidity);
      && Live(after)
      && CalculateTokensInReserve(after, liquidity).0 <= amountOne
      && CalculateTokensInReserve(after, liquidity).1 <= amountTwo
  {
    var liquidity := ProportionalLiquidity(pool, amountOne, amountTwo);
    LiquidityAtMostShare(pool, amountOne, amountTwo);
    ShareOfDeposit(pool.reserve0, amountOne, pool.totalSupply, liquidity);
    ShareOfDeposit(pool.reserve1, amountTwo, pool.totalSupply, liquidity);
  }

  lemma ShareOfDeposit(reserve: int, amount: nat, supply: int, liquidity: int)
    requires 0 < reserve && 0 < supply && 0 <= liquidity
    requires liquidity * reserve <= amount * supply
    ensures PreciseMul(PreciseDiv(reserve + amount, supply + liquidity), liquidity) <= amount
  {
  }

  // ----- Runs of deposits and withdrawals -----

  datatype Move = Deposit(amountOne: nat, amountTwo: nat) | Withdraw(liquidity: nat)

  /** A withdrawal takes what its liquidity is valued at, and leaves some liquidity behind. */
  function Apply(pool: Pool, move: Move): Pool
    requires Live(pool)
  {
    match move
    case Deposit(amountOne, amountTwo) =>
      AfterDeposit(pool, amountOne, amountTwo, ProportionalLiquidity(pool, amountOne, amountTwo))
    case Withdraw(liquidity) =>
      var (one, two) := CalculateTokensInReserve(pool, liquidity);
      Pool(pool.reserve0 - one, pool.reserve1 - two, pool.totalSupply - liquidity)
  }

  predicate Enabled(pool: Pool, move: Move) {
    Live(pool) && (move.Withdraw? ==> move.liquidity < pool.totalSupply)
  }

  /** The reserves behind each liquidity token do not shrink from one pool to the other. */
  predicate NotDiluted(before: Pool, after: Pool) {
    && before.reserve0 * after.totalSupply <= after.reserve0 * before.totalSupply
    && before.reserve1 * after.totalSupply <= after.reserve1 * before.totalSupply
  }

  lemma MoveDoesNotDilute(pool: Pool, move: Move)
    requires Enabled(pool, move)
    ensures Live(Apply(pool, move)) && NotDiluted(pool, Apply(pool, move))
  {
    match move
    case Deposit(amountOne, amountTwo) =>
      LiquidityAtMostShare(pool, amountOne, amountTwo);
      var liquidity := ProportionalLiquidity(pool, amountOne, amountTwo);
      DepositKeepsRatio(pool.reserve0, amountOne, pool.totalSupply, liquidity);
      DepositKeepsRatio(pool.reserve1, amountTwo, pool.totalSupply, liquidity);
    case Withdraw(liquidity) =>
      WithdrawKeepsRatio(pool.reserve0, pool.totalSupply, liquidity);
      WithdrawKeepsRatio(pool.reserve1, pool.totalSupply, liquidity);
  }

  lemma DepositKeepsRatio(reserve: int, amount: int, supply: int, liquidity: int)
    requires liquidity * reserve <= amount * supply
    ensures reserve * (supply + liquidity) <= (reserve + amount) * supply
  {
  }

  lemma WithdrawKeepsRatio(reserve: int, supply: int, liquidity: nat)
    requires 0 < reserve && liquidity < supply
    ensures var amount := PreciseMul(PreciseDiv(reserve, supply), liquidity);
      amount < reserve && reserve * (supply - liquidity) <= (reserve - amount) * supply
  {
    var amount := PreciseMul(PreciseDiv(reserve, supply), liquidity);
    ShareAtMostExact(reserve, supply, liquidity);
    MulLt(liquidity, supply, reserve);
    CancelLt(amount, reserve, supply);
    assert reserve * (supply - liquidity) == reserve * supply - reserve * liquidity;
    assert (reserve - amount) * supply == reserve * supply - amount * supply;
  }

  lemma NotDilutedTransitive(a: Pool, b: Pool, c: Pool)
    requires Live(a) && Live(b) && Live(c) && NotDiluted(a, b) && NotDiluted(b, c)
    ensures NotDiluted(a, c)
  {
  }

  predicate IsRun(pools: seq<Pool>, moves: seq<Move>) {
    && |pools| == |moves| + 1
    && Live(pools[0])
    && forall i :: 0 <= i < |moves| ==> Enabled(pools[i], moves[i]) && pools[i + 1] == Apply(pools[i], moves[i])
  }

  /** Over any run of deposits and withdrawals the reserves behind each liquidity token never
      shrink, nor does the product of the reserves over the square of the supply. */
  lemma {:induction false} RunsDoNotDilute(pools: seq<Pool>, moves: seq<Move>)
    requires IsRun(pools, moves)
    ensures var first, last := pools[0], pools[|moves|];
      && Live(last) && NotDiluted(first, last)
      && first.reserve0 * first.reserve1 * (last.totalSupply * last.totalSupply)
         <= last.reserve0 * last.reserve1 * (first.totalSupply * first.totalSupply)
  {
    var n := |moves|;
    if n != 0 {
      RunsDoNotDilute(pools[..n], moves[..n - 1]);
      MoveDoesNotDilute(pools[n - 1], moves[n - 1]);
      NotDilutedTransitive(pools[0], pools[n - 1], pools[n]);
    }
    var first, last := pools[0], pools[n];
    ProductOfRatios(
      first.reserve0, first.reserve1, first.totalSupply, last.reserve0, last.reserve1, last.totalSupply);
  }

  lemma ProductOfRatios(a: int, b: int, s: int, c: int, d: int, t: int)
    requires 0 < a && 0 < b && 0 < s && 0 < c && 0 < d && 0 < t
    requires a * t <= c * s && b * t <= d * s
    ensures a * b * (t * t) <= c * d * (s * s)
  {
  }

  // ----- Rebalancing -----

  datatype Trade = Trade(quantityToSell: int, assetToSell: Address, assetToBuy: Address)

  /** How much of which asset to sell so that both are worth the same at the given price; a positive
      sellTokenQuantity overrides the amount but not the direction. */
  method CalculateRebalanceQuantity(
      sellTokenQuantity: int, assetOne: Address, assetTwo: Address,
      balanceOne: nat, balanceTwo: nat, oneToTwoPrice: int)
    returns (r: Result<Trade>)
    requires 0 <= oneToTwoPrice
    ensures r.Err? <==> oneToTwoPrice == 0
    ensures r.Ok? ==>
      IsRebalancing(r.value, sellTokenQuantity, assetOne, assetTwo, balanceOne, balanceTwo, oneToTwoPrice)
  {
    if oneToTwoPrice == 0 {
      return Err(DivisionByZero);
    }
    var valueTwo := PreciseDiv(balanceTwo, oneToTwoPrice);
    var quantityToSell: int, assetToSell, assetToBuy;
    if balanceOne > valueTwo {
      quantityToSell := Div(balanceOne - valueTwo, 2);
      assetToSell, assetToBuy := assetOne, assetTwo;
    } else {
      quantityToSell := PreciseMul(Div(valueTwo - balanceOne, 2), oneToTwoPrice);
      assetToSell, assetToBuy := assetTwo, assetOne;
      RebalanceAtPrice(balanceOne, balanceTwo, valueTwo, oneToTwoPrice);
    }
    DivideFloor(balanceTwo, oneToTwoPrice);
    if sellTokenQuantity > 0 {
      quantityToSell := sellTokenQuantity;
    }
    return Ok(Trade(quantityToSell, assetToSell, assetToBuy));
  }

  /** The asset worth more is sold. Unless the caller fixed the quantity, selling it at the price
      evens the two out, and the Set has that much of it to sell. */
  ghost predicate IsRebalancing(
      t: Trade, sellTokenQuantity: int, assetOne: Address, assetTwo: Address,
      balanceOne: nat, balanceTwo: nat, oneToTwoPrice: int)
    requires 0 < oneToTwoPrice
  {
    var valueTwo := PreciseDiv(balanceTwo, oneToTwoPrice);
    if balanceOne > valueTwo then
      && t.assetToSell == assetOne && t.assetToBuy == assetTwo
      && (if 0 < sellTokenQuantity then t.quantityToSell == sellTokenQuantity
          else t.quantityToSell <= balanceOne && Balances(balanceOne, valueTwo, t.quantityToSell))
    else
      && t.assetToSell == assetTwo && t.assetToBuy == assetOne
      && (if 0 < sellTokenQuantity then t.quantityToSell == sellTokenQuantity
          else t.quantityToSell <= balanceTwo && BalancesAtPrice(valueTwo, balanceOne, t.quantityToSell, oneToTwoPrice))
  }

  /** Moving the quantity from the larger to the smaller side makes them equal up to one unit, and
      leaves the larger side the larger. */
  predicate Balances(larger: int, smaller: int, quantity: int) {
    0 <= quantity && 0 <= (larger - quantity) - (smaller + quantity) <= 1
  }

  /** The same with the quantity converted at a price, which rounds the amount down by less than one
      of its own units. */
  ghost predicate BalancesAtPrice(larger: int, smaller: int, quantity: int, price: int) {
    exists moved: int :: Balances(larger, smaller, moved) && IsFloor(quantity, moved * price, PRECISE_UNIT)
  }

  lemma RebalanceAtPrice(balanceOne: nat, balanceTwo: nat, valueTwo: int, price: int)
    requires 0 < price && valueTwo == PreciseDiv(balanceTwo, price) && balanceOne <= valueTwo
    ensures var quantity := PreciseMul(Div(valueTwo - balanceOne, 2), price);
      BalancesAtPrice(valueTwo, balanceOne, quantity, price) && quantity <= balanceTwo
  {
    var moved := Div(valueTwo - balanceOne, 2);
    var quantity := PreciseMul(moved, price);
    DivideFloor(balanceTwo, price);
    MulFloor(moved, price);
    MulLe(moved, valueTwo, price);
    CancelLe(quantity, balanceTwo, PRECISE_UNIT);
    assert Balances(valueTwo, balanceOne, moved);
  }
}
