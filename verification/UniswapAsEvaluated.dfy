/** The functions of UniswapUtils with the comparisons that JavaScript makes of two BigNumber objects:
    `<` and `>` compare decimal strings, `==` and `!=` compare identities, so that a number just
    computed never equals the constant ZERO. */
module UniswapAsEvaluated {
  import opened Arithmetic
  import opened BigNumbers
  import opened DecimalOrder
  import opened MathUtils
  import opened UniswapUtils
  import opened Wrappers

  // ----- Square root -----

  /** The guard of the square root, value > 3, holds for 4 to 9 and for the longer numbers that do
      not begin with 1 or 2. */
  lemma JsSqrtGuard(value: nat)
    ensures JsLess(3, value) <==> 3 < value && (10 <= value ==> 3 <= value / Pow10(Size(value) - 1))
  {
    ComparesLeadingDigits(3, value);
    SizeOne(3);
    SizeOne(value);
  }

  /** Where the guard fails one is returned, which is the root exactly for 1, 2 and 3. */
  lemma JsSqrtWithoutLoop(value: int)
    requires !JsLess(3, value)
    ensures IsRoot(1, value) <==> 1 <= value <= 3
    ensures value < 4 || 10 <= value
  {
    if 0 <= value {
      JsSqrtGuard(value);
    }
  }

  lemma NegativeFailsGuard(value: int)
    requires value < 0
    ensures !JsLess(3, value)
  {
    SizeOne(3);
    assert ToString(3)[0] == '3' && ToString(value)[0] == '-';
  }

  lemma {:induction false} SameSizeWithinTen(a: nat, b: nat)
    requires Size(a) == Size(b) && 0 < b
    ensures a < 10 * b
  {
    SizeOne(a);
    SizeOne(b);
    if 10 <= a {
      SameSizeWithinTen(a / 10, b / 10);
    }
  }

  /** x is the guess that follows z, or the first one. */
  predicate IsGuess(value: nat, z: nat, x: nat)
    requires 0 < z
  {
    (z == value && x == value / 2 + 1) || x == (value / z + z) / 2
  }

  /** The guess that follows z does not come before it as a string. */
  predicate IsStop(value: nat, z: nat)
    requires 0 < z
  {
    !JsLess((value / z + z) / 2, z) || (z == value && !JsLess(value / 2 + 1, value))
  }

  /** Within the digit count of the value a guess is never larger than what it improves, beyond nine. */
  lemma LongGuessBetweenHalfAndWhole(value: nat, z: nat, x: nat)
    requires 10 <= value && 0 < z && Size(z) == Size(value) && IsGuess(value, z, x)
    ensures 10 <= z && x <= z <= 2 * x + 1
  {
    SizeOne(value);
    SizeOne(z);
    SameSizeWithinTen(value, z);
    Floor(value, z);
    FloorLe(value, z, 9);
  }

  /** A shorter guess is too large to come before z as a string, so one that does has as many digits
      and is smaller. */
  lemma LongGuessLess(value: nat, z: nat, x: nat)
    requires 10 <= value && 0 < z && Size(z) == Size(value) && IsGuess(value, z, x)
    ensures JsLess(x, z) ==> x < z && Size(x) == Size(z)
  {
    LongGuessBetweenHalfAndWhole(value, z, x);
    SizeGrows(x, z);
    ComparesLeadingDigits(x, z);
    if Size(x) < Size(z) {
      LeadAtMostTenth(z, Size(z) - Size(x));
    }
  }

  lemma LeadAtMostTenth(z: nat, k: nat)
    requires 0 < k
    ensures z / Pow10(k) <= z / 10
  {
    DivideTwice(z, Pow10(k - 1));
    Floor(z / 10, Pow10(k - 1));
    MulLe(1, Pow10(k - 1), z / 10 / Pow10(k - 1));
  }

  lemma OneDigitLess(a: nat, b: nat)
    requires a < 10 && b < 10
    ensures Size(a) == Size(b) == 1
    ensures JsLess(a, b) <==> a < b
  {
    SizeOne(a);
    SizeOne(b);
    ComparesLeadingDigits(a, b);
  }

  lemma ShortGuess(value: nat, z: nat, x: nat)
    requires 3 < value < 10 && 0 < z < 10 && IsGuess(value, z, x)
    ensures 0 < x < 10
  {
    FloorLe(value, z, value) by {
      MulLe(1, z, value);
    }
    Floor(value, z);
    NextGuessPositive(value, z, (value / z + z) / 2);
  }

  /** Of the numbers with as many digits as a value of two or more, none is its root. */
  lemma SameSizeIsNoRoot(value: nat, z: nat)
    requires 10 <= value && Size(z) == Size(value)
    ensures !IsRoot(z, value)
  {
    SizeOne(value);
    SizeOne(z);
    SameSizeWithinTen(value, z);
    MulLe(10, z, z);
  }

  /** The square root as JavaScript evaluates it. Its loop always ends, z falling at every turn, and
      the result is the root exactly for the values of one digit other than zero. */
  method JsSqrt(value: int) returns (z: int)
    ensures IsRoot(z, value) <==> 1 <= value <= 9
    ensures !JsLess(3, value) ==> z == 1
    ensures JsLess(3, value) ==> 0 < z <= value && Size(z) == Size(value) && IsStop(value, z)
  {
    z := value;
    if value < 0 {
      NegativeFailsGuard(value);
    } else {
      JsSqrtGuard(value);
    }
    if JsLess(3, value) {
      var x := Div(value, 2) + 1;
      FirstGuess(value, x);
      while JsLess(x, z)
        invariant 0 < x && 0 < z <= value && IsGuess(value, z, x) && Size(z) == Size(value)
        invariant value < (x + 1) * (x + 1) && value < (z + 1) * (z + 1)
        invariant value < 10 ==> (z == value && x < z) || x == (value / z + z) / 2
        decreases z
      {
        SizeOne(value);
        SizeOne(z);
        if value < 10 {
          ShortGuess(value, z, x);
          OneDigitLess(x, z);
        } else {
          LongGuessLess(value, z, x);
        }
        z := x;
        x := Div(Div(value, x) + x, 2);
        Floor(value, z);
        BabylonianStep(value, z, x);
        NextGuessPositive(value, z, x);
      }
      SizeOne(value);
      SizeOne(z);
      if value < 10 {
        ShortGuess(value, z, x);
        OneDigitLess(x, z);
        StoppedAtRoot(value, z, x);
      } else {
        SameSizeIsNoRoot(value, z);
      }
    } else {
      // value != ZERO holds of any two objects
      JsSqrtWithoutLoop(value);
      z := 1;
    }
  }

  // ----- Liquidity -----

  /** The minted liquidity: line 18 never finds a supply equal to ZERO, so the proportional branch is
      always taken, and a reserve of zero divides by zero. */
  function JsLPTokensIssued(pool: Pool, amountOne: int, amountTwo: int): Result<int> {
    if pool.reserve0 == 0 || pool.reserve1 == 0 then Err(DivisionByZero)
    else
      Ok(JsMin(
        Div(amountOne * pool.totalSupply, pool.reserve0),
        Div(amountTwo * pool.totalSupply, pool.reserve1)))
  }

  /** The digit condition under which JavaScript's minimum of two numbers is their minimum. */
  predicate DigitsAgree(a: nat, b: nat) {
    if Size(a) < Size(b) then a <= b / Pow10(Size(b) - Size(a))
    else if Size(b) < Size(a) then b <= a / Pow10(Size(a) - Size(b))
    else true
  }

  /** The two proportional shares that a deposit is entitled to. */
  function Shares(pool: Pool, amountOne: nat, amountTwo: nat): (shares: (nat, nat))
    requires Live(pool)
    ensures IsFloor(shares.0, amountOne * pool.totalSupply, pool.reserve0)
    ensures IsFloor(shares.1, amountTwo * pool.totalSupply, pool.reserve1)
  {
    MulLe(0, amountOne, pool.totalSupply);
    MulLe(0, amountTwo, pool.totalSupply);
    DivFloor(amountOne * pool.totalSupply, pool.reserve0);
    DivFloor(amountTwo * pool.totalSupply, pool.reserve1);
    (Div(amountOne * pool.totalSupply, pool.reserve0), Div(amountTwo * pool.totalSupply, pool.reserve1))
  }

  predicate SharesAgree(pool: Pool, amountOne: nat, amountTwo: nat)
    requires Live(pool)
  {
    var (one, two) := Shares(pool, amountOne, amountTwo);
    DigitsAgree(one, two)
  }

  /** The liquidity is at most what either asset deposited is worth. */
  predicate WithinShares(pool: Pool, amountOne: nat, amountTwo: nat, liquidity: int) {
    liquidity * pool.reserve0 <= amountOne * pool.totalSupply && liquidity * pool.reserve1 <= amountTwo * pool.totalSupply
  }

  /** A pool without supply is not recognized: the first deposit mints nothing, or fails if a reserve
      is zero, as both are in a new pool. */
  lemma FirstDepositMintsNothing(pool: Pool, amountOne: nat, amountTwo: nat)
    requires pool.totalSupply == 0
    ensures JsLPTokensIssued(pool, amountOne, amountTwo)
         == if pool.reserve0 == 0 || pool.reserve1 == 0 then Err(DivisionByZero) else Ok(0)
  {
    SizeOne(0);
    ComparesLeadingDigits(0, 0);
  }

  /** A live pool mints what it should, and at most either proportional share, and keeps the reserves
      behind each liquidity token, exactly when the digits of the two shares agree. */
  lemma JsDepositIsFairIff(pool: Pool, amountOne: nat, amountTwo: nat)
    requires Live(pool)
    ensures JsLPTokensIssued(pool, amountOne, amountTwo).Ok?
    ensures var liquidity := JsLPTokensIssued(pool, amountOne, amountTwo).value;
      var shares := Shares(pool, amountOne, amountTwo);
      && (liquidity == shares.0 || liquidity == shares.1)
      && (liquidity == ProportionalLiquidity(pool, amountOne, amountTwo) <==> SharesAgree(pool, amountOne, amountTwo))
      && (WithinShares(pool, amountOne, amountTwo, liquidity) <==> SharesAgree(pool, amountOne, amountTwo))
      && (NotDiluted(pool, AfterDeposit(pool, amountOne, amountTwo, liquidity)) <==> SharesAgree(pool, amountOne, amountTwo))
  {
    var (one, two) := Shares(pool, amountOne, amountTwo);
    JsMinIsMinIff(one, two);
    var liquidity := JsMin(one, two);
    QuotientLimit(amountOne * pool.totalSupply, pool.reserve0, liquidity) by {
      MulLe(0, amountOne, pool.totalSupply);
    }
    QuotientLimit(amountTwo * pool.totalSupply, pool.reserve1, liquidity) by {
      MulLe(0, amountTwo, pool.totalSupply);
    }
    RatioKeptIff(pool.reserve0, amountOne, pool.totalSupply, liquidity);
    RatioKeptIff(pool.reserve1, amountTwo, pool.totalSupply, liquidity);
  }

  lemma RatioKeptIff(reserve: int, amount: int, supply: int, liquidity: int)
    ensures reserve * (supply + liquidity) <= (reserve + amount) * supply <==> liquidity * reserve <= amount * supply
  {
    assert reserve * (supply + liquidity) == reserve * supply + liquidity * reserve;
    assert (reserve + amount) * supply == reserve * supply + amount * supply;
  }

  /** Where the digits agree, depositing and valuing the liquidity received shows no profit. */
  lemma JsDepositRoundTrip(pool: Pool, amountOne: nat, amountTwo: nat)
    requires Live(pool) && SharesAgree(pool, amountOne, amountTwo)
    ensures var liquidity := JsLPTokensIssued(pool, amountOne, amountTwo);
      && liquidity.Ok?
      && var after := AfterDeposit(pool, amountOne, amountTwo, liquidity.value);
      && Live(after)
      && CalculateTokensInReserve(after, liquidity.value).0 <= amountOne
      && CalculateTokensInReserve(after, liquidity.value).1 <= amountTwo
  {
    JsDepositIsFairIff(pool, amountOne, amountTwo);
    DepositRoundTripNeverProfits(pool, amountOne, amountTwo);
  }

  /** Where they do not, it can: nine of one asset and a thousand of the other, put into a thousand
      of each, are valued at 504 of the first. */
  lemma JsDepositCanProfit()
    ensures var pool := Pool(1000, 1000, 1000);
      && !SharesAgree(pool, 9, 1000)
      && JsLPTokensIssued(pool, 9, 1000) == Ok(1000)
      && CalculateTokensInReserve(AfterDeposit(pool, 9, 1000, 1000), 1000).0 == 504 > 9
  {
    var pool := Pool(1000, 1000, 1000);
    assert Shares(pool, 9, 1000) == (9, 1000);
    assert Decimal(9) == "9" && Decimal(1000) == "1000";
    assert Pow10(3) == 1000;
    JsMinIsMinIff(9, 1000);
  }

  /** A run in which every deposit mints what JavaScript computes. */
  predicate IsJsRun(pools: seq<Pool>, moves: seq<Move>) {
    && |pools| == |moves| + 1
    && Live(pools[0])
    && forall i :: 0 <= i < |moves| ==> Enabled(pools[i], moves[i]) && JsStep(pools[i], moves[i], pools[i + 1])
  }

  predicate JsStep(pool: Pool, move: Move, next: Pool)
    requires Live(pool)
  {
    match move
    case Deposit(amountOne, amountTwo) =>
      next == AfterDeposit(pool, amountOne, amountTwo, JsLPTokensIssued(pool, amountOne, amountTwo).value)
    case Withdraw(_) => next == Apply(pool, move)
  }

  /** A deposit must meet the digit condition; a withdrawal computes nothing by comparison. */
  predicate StepAgrees(pool: Pool, move: Move)
    requires Live(pool)
  {
    move.Deposit? ==> SharesAgree(pool, move.amountOne, move.amountTwo)
  }

  lemma JsStepDilutesIff(pool: Pool, move: Move, next: Pool)
    requires Enabled(pool, move) && JsStep(pool, move, next)
    ensures NotDiluted(pool, next) <==> StepAgrees(pool, move)
    ensures StepAgrees(pool, move) ==> next == Apply(pool, move)
  {
    match move
    case Deposit(amountOne, amountTwo) => JsDepositIsFairIff(pool, amountOne, amountTwo);
    case Withdraw(_) => MoveDoesNotDilute(pool, move);
  }

  /** In a run no step dilutes exactly when the digits agree at every deposit, and then the whole run
      does not. */
  lemma JsRunsDoNotDiluteIff(pools: seq<Pool>, moves: seq<Move>)
    requires IsJsRun(pools, moves)
    ensures (forall i :: 0 <= i < |moves| ==> StepAgrees(pools[i], moves[i]))
       <==> (forall i :: 0 <= i < |moves| ==> NotDiluted(pools[i], pools[i + 1]))
    ensures (forall i :: 0 <= i < |moves| ==> StepAgrees(pools[i], moves[i])) ==>
      Live(pools[|moves|]) && NotDiluted(pools[0], pools[|moves|])
  {
    hide StepAgrees, NotDiluted, Apply, JsStep, Live;
    forall i | 0 <= i < |moves|
      ensures NotDiluted(pools[i], pools[i + 1]) <==> StepAgrees(pools[i], moves[i])
      ensures StepAgrees(pools[i], moves[i]) ==> pools[i + 1] == Apply(pools[i], moves[i])
    {
      JsStepDilutesIff(pools[i], moves[i], pools[i + 1]);
    }
    if forall i :: 0 <= i < |moves| ==> StepAgrees(pools[i], moves[i]) {
      RunsDoNotDilute(pools, moves);
    } else {
      var k :| 0 <= k < |moves| && !StepAgrees(pools[k], moves[k]);
      assert !NotDiluted(pools[k], pools[k + 1]);
    }
  }
}
