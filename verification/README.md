# Fixed-point accounting of a tokenized portfolio, verified

A Set is a token that stands for a basket of components. This project models the reference
arithmetic that the repository keeps in `utils/common` for issuing, redeeming, charging fees on and
pricing Sets, and proves what that arithmetic is for: deposits do not dilute holders, round trips do
not profit, recorded positions stay backed over whole runs, and every rounding goes the way it should.

All amounts are unbounded integers with 10^18 as one, as ethers' BigNumber has them. `BigNumbers.Div`
is its division, which rounds toward zero; `Mod` is its modulus, which is never negative.

| file | models |
|---|---|
| `Arithmetic.dfy`, `BigNumbers.dfy`, `Types.dfy`, `Wrappers.dfy` | shared facts, BigNumber division, addresses, results that stand for thrown errors |
| `MathUtils.dfy` | the rounding primitives, over all signs, and the winding down of a Set |
| `FeeModuleUtils.dfy` | the streaming fee, the Sets minted for it, the rescaled units, runs of accruals |
| `NavIssuanceModuleUtils.dfy` | issuance and redemption at net asset value: quantities, multipliers, units |
| `NavIssuanceRuns.dfy` | any interleaving of issuances, redemptions and fee accruals of one Set |
| `ExchangeIssuanceUtils.dfy` | the two-pass estimate of the Sets that an amount of ETH buys |
| `ConstantProduct.dfy` | constant-product exchanges as an instance of the venues the estimate assumes |
| `PathEncoding.dfy` | the packed Uniswap V3 path and a decoder for it |
| `UniswapUtils.dfy` | liquidity shares of a Uniswap V2 pair, rebalancing, the integer square root, with integers compared as intended |
| `DecimalOrder.dfy` | what JavaScript's `<` does to two BigNumber objects |
| `UniswapAsEvaluated.dfy` | the square root, the minted liquidity and runs of deposits as JavaScript evaluates those comparisons |
| `PerpV2Utils.dfy` | collateral moved for perpetual positions on issuance and redemption |

## How the model reads the code

- Contract reads (supply, valuation, reserves, positions, quotes) are parameters. A router quote is an
  option: `None` is a revert, and the estimator then fails as the awaited call would.
- BigNumber division by zero throws. The loops return `Err(DivisionByZero)` where it would; the pure
  formulas carry the non-zero divisor as a precondition. `preciseDivCeil` is the exception in the code:
  it returns zero for a zero divisor, and so does the model.
- Non-negative supplies, valuations, balances and fees are what the contracts' unsigned types give.
  The primitives of `mathUtils.ts` and the position loops are specified for all signs.
- The first pass of the estimator repeats the price selection of `getInputAmountBestPrice` inline; the
  two take the same minimum, and the model has one function for both.
- `getExpectedRedeemPositionUnit` takes two fee arguments that it does not use; the model leaves them out.

## Where the code does not do what it looks like

- `uniswapUtils.ts` compares BigNumber objects with `<`, `>`, `==` and `!=` (lines 18, 111, 149, 151,
  155 and 166). In JavaScript `<` and `>` on two such objects compare their decimal strings, and `==`
  and `!=` compare identities, assuming that BigNumber objects convert through their decimal `toString`
  and that no amount read or computed is the constant object ZERO. `UniswapUtils.dfy` models the
  intended comparison of integers, and its results about the square root, the minted liquidity and runs
  hold for that comparison only. `UniswapAsEvaluated.dfy` models what runs, and says when it agrees:
  - The square root always ends, and is the root exactly for 1 to 9. It is wrong for zero and for every
    value of two or more digits (`JsSqrt`).
  - A deposit into a live pool mints the proportional liquidity, stays within both shares and does not
    dilute the pool exactly when the digits of the two shares agree (`JsDepositIsFairIff`); the round
    trip and whole runs hold under that condition. Without it a deposit can profit at once:
    `JsDepositCanProfit` is valued at 504 of an asset against 9 deposited.
  - The first-deposit branch at line 18 is never taken. A pool without supply mints nothing, or ends in a
    division by zero if a reserve is zero (`FirstDepositMintsNothing`).
  - `> ZERO` at line 111 is right for every integer.
- `preciseMulCeil` and `preciseDivCeil` are not ceilings on signed operands:
  `PreciseMulCeilIsCeilingIff` and `PreciseDivCeilIsCeilingIff` say when they are.
- The quantity left after fees is not monotone in the quantity unless one of the two fees is zero
  (`PostFeeMonotoneIff`).
- A redemption that takes more than the notional held is conserved only when fees keep its payout within
  that notional and the shortfall rounds to no unit at all (`RedemptionConservedIff`); without fees it
  never is (`FreeRedemptionConservedIff`). In the other cases the unit is negative, or rounds to zero
  and hides the shortfall.
- A short position too small for one wei of unit is closed as a long: `ShortCountsAsLongIff`.

## Model

| member | source | states |
|---|---|---|
| `BigNumbers.DivTruncates` | utils/common/mathUtils.ts:5-7 | the division under every primitive rounds toward zero for all signs |
| `BigNumbers.TruncatedIsDiv` | utils/common/mathUtils.ts:5-7 | the truncated quotient is unique: an integer truncates the exact quotient exactly when it is the division |
| `MathUtils.PreciseMulTruncates` | utils/common/mathUtils.ts:5-7 | preciseMul is the product over 10^18 with the fraction dropped, for all signs |
| `MathUtils.PreciseMulCeilIsCeilingIff` | utils/common/mathUtils.ts:9-15 | preciseMulCeil is the least integer not below the exact product exactly when the product is not negative or is one above a multiple of the unit |
| `MathUtils.PreciseMulCeilIntAwayFromZero` | utils/common/mathUtils.ts:17-27 | preciseMulCeilInt rounds away from zero for all signs |
| `MathUtils.PreciseDivTruncates` | utils/common/mathUtils.ts:29-31 | preciseDiv rounds toward zero for all signs |
| `MathUtils.PreciseDivCeilIsCeilingIff` | utils/common/mathUtils.ts:33-39 | for every non-zero divisor preciseDivCeil is the ceiling exactly under a condition on the signs and the two remainders |
| `MathUtils.PreciseDivCeilIntAwayFromZero` | utils/common/mathUtils.ts:41-52 | preciseDivCeilInt rounds away from zero, and is exact when the division is, for all signs |
| `MathUtils.CeilingsTruncateBelow` | utils/common/mathUtils.ts:9-39 | both ceilings are zero for a zero operand and otherwise one above the truncated quotient of one less, for all signs |
| `MathUtils.DivDownFloors` | utils/common/mathUtils.ts:54-62 | divDown is the floor of the exact quotient for every sign of both operands |
| `MathUtils.MulAtMost` | utils/common/mathUtils.ts:5-15 | a factor between zero and one never enlarges, rounded either way |
| `MathUtils.PaymentsAndPayouts` | utils/common/mathUtils.ts:5-39 | each payment of a wind-down is its quantity at the debt rate, both rounded up, and each payout its quantity at the asset rate, both rounded down |
| `MathUtils.WindDownIsSolvent` | utils/common/mathUtils.ts:5-39 | however the supply is split into redemptions, rounded-up payments cover the debt and rounded-down payouts stay within the assets |
| `FeeModuleUtils.StreamingFeeProrates` | utils/common/feeModuleUtils.ts:15-19 | the rate in force, the caller's or else the Set's own, is prorated over any interval with the fraction dropped |
| `FeeModuleUtils.FeesProrate` | utils/common/feeModuleUtils.ts:15-19 | each fee of a list of accruals is prorated over its own interval, and the single fee over the whole |
| `FeeModuleUtils.InflatedSupply` | utils/common/feeModuleUtils.ts:22-30 | supply plus minted fee is the floor of supply / (1 - fee) |
| `FeeModuleUtils.FeeShare` | utils/common/feeModuleUtils.ts:22-30 | the minted Sets are the fee percentage of the enlarged supply, rounded down |
| `FeeModuleUtils.GetPostFeePositionUnits` | utils/common/feeModuleUtils.ts:32-45 | for every fee the loop returns one unit for each unit: asset units scaled by one minus the fee and truncated, debt units rounded away from zero |
| `FeeModuleUtils.AssetUnitShrinks` | utils/common/feeModuleUtils.ts:38-40 | an asset unit becomes the floor of its exact share and never grows |
| `FeeModuleUtils.DebtUnitShrinks` | utils/common/feeModuleUtils.ts:40-42 | a debt unit becomes the ceiling in magnitude of its exact share, stays a debt and never grows |
| `FeeModuleUtils.AccrueMintsAndRescales` | utils/common/feeModuleUtils.ts:22-45 | one accrual sets the supply to the floor of supply / (1 - fee) and rescales every unit by the rule for its sign |
| `FeeModuleUtils.RunAccruesEach` | utils/common/feeModuleUtils.ts:22-45 | the last fee of any run does exactly that to what the fees before it left |
| `FeeModuleUtils.AssetClaimNeverGrows` | utils/common/feeModuleUtils.ts:22-45 | unit times supply of an asset does not grow over an accrual |
| `FeeModuleUtils.DebtClaimHardlyShrinks` | utils/common/feeModuleUtils.ts:22-45 | a debt is under-counted by less than one wei of supply would account for |
| `FeeModuleUtils.AssetClaimsBounded` | utils/common/feeModuleUtils.ts:22-45 | over any run of accruals no asset position claims more than at the start |
| `FeeModuleUtils.DebtClaimsKept` | utils/common/feeModuleUtils.ts:22-45 | over any run of n accruals a debt loses less than n of its first units |
| `FeeModuleUtils.PiecesChargeLess` | utils/common/feeModuleUtils.ts:18-19 | percentages truncated piece by piece add up to at most the percentage of the whole interval |
| `FeeModuleUtils.CompoundedSupply` | utils/common/feeModuleUtils.ts:22-30 | compounding any fees ends under supply / (1 - their sum) |
| `FeeModuleUtils.AccrualSplitting` | utils/common/feeModuleUtils.ts:8-30 | accruing at every timestamp of a list never ends with a larger supply than accruing once over the interval |
| `NavIssuanceModuleUtils.PostFeeBounds` | utils/common/navIssuanceModuleUtils.ts:77-86 | what is left after fees is at least the exact remainder and less than two wei above it |
| `NavIssuanceModuleUtils.PostFeeIsPostFee` | utils/common/navIssuanceModuleUtils.ts:77-86 | the two fees are truncated one by one and both leave the quantity, for all signs |
| `NavIssuanceModuleUtils.PostFeeMonotoneIff` | utils/common/navIssuanceModuleUtils.ts:77-86 | the quantity left never falls as the quantity grows exactly when one of the two fees is zero |
| `NavIssuanceModuleUtils.PostFeeIsNotMonotone` | utils/common/navIssuanceModuleUtils.ts:77-86 | a deposit of two can leave less than a deposit of one |
| `NavIssuanceModuleUtils.NormalizedBounds` | utils/common/navIssuanceModuleUtils.ts:42-47 | the value held and the deposit before and after premium round down from their exact values, and the denominator is at least the value held |
| `NavIssuanceModuleUtils.IssueQuantityIsIssued` | utils/common/navIssuanceModuleUtils.ts:29-49 | for all signs the quantity truncates deposit after premium times supply over the value held plus the deposit before premium less the deposit after it, each of the three truncated |
| `NavIssuanceModuleUtils.IssuerGetsAtMostDeposit` | utils/common/navIssuanceModuleUtils.ts:29-49 | the issuer's share of the enlarged Set is worth at most the deposit after fees and premium, and the quantity is tight to two roundings of the value held and the deposit before and after premium |
| `NavIssuanceModuleUtils.IssuanceDoesNotDilute` | utils/common/navIssuanceModuleUtils.ts:29-49 | issuance never lowers the value behind each existing Set |
| `NavIssuanceModuleUtils.IssuedFallsWithPremium` | utils/common/navIssuanceModuleUtils.ts:38-49 | a higher premium never issues more Sets for the same deposit |
| `NavIssuanceModuleUtils.PremiumRounding` | utils/common/navIssuanceModuleUtils.ts:38-40 | the premium of an issuer rounds down, that of a redeemer rounds up |
| `NavIssuanceModuleUtils.PayoutAndTaken` | utils/common/navIssuanceModuleUtils.ts:88-137 | the payout is the redeemed value after a premium rounded up, less two fees truncated one by one, converted once and truncated; the reserve taken converts that value without fees |
| `NavIssuanceModuleUtils.PayoutBracketsExactValue` | utils/common/navIssuanceModuleUtils.ts:88-107 | the payout lies between explicit bounds around the exact value after premium and fees |
| `NavIssuanceModuleUtils.PayoutWithinReserveTaken` | utils/common/navIssuanceModuleUtils.ts:88-137 | the payout never exceeds the reserve that leaves the Set |
| `NavIssuanceModuleUtils.RoundTripNeverProfits` | utils/common/navIssuanceModuleUtils.ts:19-107 | issuing and then redeeming pays at most the deposit after its fees and premium, whatever the fees and premium of the redemption, at any valuation not above what the Set holds |
| `NavIssuanceModuleUtils.MultipliersAgree` | utils/common/navIssuanceModuleUtils.ts:7-17 | the issue multiplier and the redeem multiplier are one function of the two supplies |
| `NavIssuanceModuleUtils.NextMultiplierBounds` | utils/common/navIssuanceModuleUtils.ts:109-119 | one change of supply does not raise multiplier times supply, and lowers it by a bounded rounding |
| `NavIssuanceModuleUtils.RunRescalesEach` | utils/common/navIssuanceModuleUtils.ts:7-17 | each change of supply in any list truncates the multiplier before it times the old supply over the new |
| `NavIssuanceModuleUtils.MultiplierTimesSupplyNeverGrows` | utils/common/navIssuanceModuleUtils.ts:7-17 | over any list of positive supplies multiplier times supply never increases, so a return to the first supply never raises the multiplier |
| `NavIssuanceModuleUtils.RoundTripUnitBounds` | utils/common/navIssuanceModuleUtils.ts:72-74 | converting a real unit to a virtual one and back only rounds down, by less than 10^18/multiplier + 1 |
| `NavIssuanceModuleUtils.RoundTripIsUnitOf` | utils/common/navIssuanceModuleUtils.ts:72-74 | for all signs the unit of a notional is three truncations: the real unit, the virtual unit, and the real unit again |
| `NavIssuanceModuleUtils.IssueUnitIsUnitOf` | utils/common/navIssuanceModuleUtils.ts:52-75 | the unit after an issuance is those truncations of the notional held plus the deposit left by its two fees |
| `NavIssuanceModuleUtils.IssueUnitBackedAndTight` | utils/common/navIssuanceModuleUtils.ts:52-75 | the unit after an issuance claims at most what was held plus the deposit after fees, and is within explicit roundings of the exact ratio |
| `NavIssuanceModuleUtils.IssuanceKeepsUnit` | utils/common/navIssuanceModuleUtils.ts:19-75 | for a Set valued at its own reserve units, the unit after issuing the expected quantity is at least the unit before less explicit roundings |
| `NavIssuanceModuleUtils.RedemptionConservesReserve` | utils/common/navIssuanceModuleUtils.ts:88-145 | when no more is taken than held, the units left and the payout add up to at most the units before, and the unit is tight |
| `NavIssuanceModuleUtils.RedeemUnitIsUnitOf` | utils/common/navIssuanceModuleUtils.ts:121-145 | the unit after a redemption is those truncations of the notional held less the reserve taken, negative notionals included |
| `NavIssuanceModuleUtils.RedemptionConservedIff` | utils/common/navIssuanceModuleUtils.ts:88-145 | a redemption is conserved exactly when it takes no more than held, or its payout is within what is held and the shortfall rounds to no unit |
| `NavIssuanceModuleUtils.FreeRedemptionConservedIff` | utils/common/navIssuanceModuleUtils.ts:88-145 | without fees it is conserved exactly when it takes no more than held |
| `NavIssuanceRuns.StepKeeps` | utils/common/navIssuanceModuleUtils.ts:7-145 | each issuance, redemption or fee accrual keeps the units backed, conserves the reserve and does not raise multiplier times supply |
| `NavIssuanceRuns.StepRecords` | utils/common/navIssuanceModuleUtils.ts:7-145 | what each step does to supply, reserve, multiplier and the two totals, by the truncations that define it |
| `NavIssuanceRuns.RunsStaySolvent` | utils/common/navIssuanceModuleUtils.ts:7-145 | the same over any run of them, at any valuations, fees and premiums |
| `NavIssuanceRuns.RedeemMultiplierBounds` | utils/common/navIssuanceModuleUtils.ts:109-119 | a redemption never raises multiplier times supply |
| `ExchangeIssuanceUtils.PriceComponents` | utils/common/exchangeIssuanceUtils.ts:36-60 | the first pass succeeds exactly when every exchange that lists a component quotes it, and then returns the least of those quotes in order with their sum |
| `ExchangeIssuanceUtils.GetIssueSetForExactETH` | utils/common/exchangeIssuanceUtils.ts:27-89 | the estimate is the greatest number of Sets up to the largest uint256 that the best sale of every share allows, shares being proportional to the best prices; it fails exactly when a listing exchange reverts or a divisor is zero, and then no number of Sets is an estimate |
| `ExchangeIssuanceUtils.GetIssueExactSetFromETH` | utils/common/exchangeIssuanceUtils.ts:117-144 | the cost of an exact quantity is the sum of the least listed quotes for its component amounts, and it fails exactly when no such sum exists |
| `ExchangeIssuanceUtils.BestPriceIsCheapest` | utils/common/exchangeIssuanceUtils.ts:272-298 | no listing exchange quotes less than the best price, and one quotes it |
| `ExchangeIssuanceUtils.BestPriceIff` | utils/common/exchangeIssuanceUtils.ts:272-298 | a price is best exactly when it is the amount of wrapped ether itself or the least of the listed quotes, and there is one exactly when every listing exchange quotes |
| `ExchangeIssuanceUtils.BestOutputIsMost` | utils/common/exchangeIssuanceUtils.ts:68-81 | no listing exchange sells more than the best output, and one sells that much |
| `ExchangeIssuanceUtils.BestOutputIff` | utils/common/exchangeIssuanceUtils.ts:68-81 | an output is best exactly when it is the share of wrapped ether itself or the greatest listed output, zero if unlisted, and there is one exactly when every listing exchange quotes |
| `ExchangeIssuanceUtils.AmountsTruncateProducts` | utils/common/exchangeIssuanceUtils.ts:128-131 | every component amount truncates quantity times unit once, in order |
| `ExchangeIssuanceUtils.SplitSpendsTheInput` | utils/common/exchangeIssuanceUtils.ts:62-66 | the shares never exceed the input and leave less than one wei per component |
| `ExchangeIssuanceUtils.BestPriceSuffices` | utils/common/exchangeIssuanceUtils.ts:47-81 | spending at least the cheaper exchange's price at the better exchange buys at least the amount priced |
| `ExchangeIssuanceUtils.BudgetForOneSetYieldsOne` | utils/common/exchangeIssuanceUtils.ts:27-144 | an input of at least the quoted cost of one Set is estimated to issue at least one |
| `ExchangeIssuanceUtils.UnlistedComponentYieldsNothing` | utils/common/exchangeIssuanceUtils.ts:71-86 | a component that no exchange lists makes the estimate zero |
| `ExchangeIssuanceUtils.EstimateGrowsWithBudget` | utils/common/exchangeIssuanceUtils.ts:62-88 | a larger input is never estimated to issue fewer Sets |
| `ConstantProduct.PairVenueIsCoherent` | utils/common/exchangeIssuanceUtils.ts:47-81 | the hypotheses on quotes are met: constant-product pairs with a 0.3% fee quote coherently, whatever their reserves |
| `PathEncoding.EncodePath` | utils/common/exchangeIssuanceUtils.ts:368-385 | the loop builds the packed encoding, or fails exactly for mismatched lengths or a number that hexlify rejects |
| `PathEncoding.FeeFieldProperties` | utils/common/exchangeIssuanceUtils.ts:377-381 | a fee field parses back to its fee and has six digits exactly for fees below 2^24 |
| `PathEncoding.HexlifyWholeBytes` | utils/common/exchangeIssuanceUtils.ts:377-381 | hexlify gives the least whole number of bytes that holds the fee |
| `PathEncoding.EncodedLength` | utils/common/exchangeIssuanceUtils.ts:368-385 | the encoding has 40 digits an address and six a fee exactly when all fees are below 2^24 |
| `PathEncoding.EncodingIsLowerCase` | utils/common/exchangeIssuanceUtils.ts:368-385 | the encoding starts with 0x and has no capital letter |
| `PathEncoding.EncodedLayout` | utils/common/exchangeIssuanceUtils.ts:368-385 | the i-th address and the i-th fee stand at fixed offsets of the encoding |
| `PathEncoding.DecodeEncoded` | utils/common/exchangeIssuanceUtils.ts:368-385 | decoding gives back the lower-cased addresses and the fees |
| `PathEncoding.DecodedAddressesHaveSameValue` | utils/common/exchangeIssuanceUtils.ts:368-385 | a decoded address is the same hexadecimal number as the address encoded |
| `PathEncoding.EncodingIsInjective` | utils/common/exchangeIssuanceUtils.ts:368-385 | two trades share an encoding exactly when fees agree and addresses differ at most in case |
| `UniswapUtils.Sqrt` | utils/common/uniswapUtils.ts:145-160 | the loop ends with the greatest z whose square fits, its measure z falling at every turn, comparing integers as intended |
| `UniswapUtils.BabylonianStep` | utils/common/uniswapUtils.ts:151-154 | a step from any positive guess never lands below the root |
| `UniswapUtils.CalculateLPTokensIssued` | utils/common/uniswapUtils.ts:9-28 | comparing as intended, the first deposit mints its root less the minimum, later ones the smaller proportional share |
| `UniswapUtils.LiquidityAtMostShare` | utils/common/uniswapUtils.ts:21-24 | the smaller share is at most the share of either asset and within one of the smaller exact one |
| `UniswapUtils.ShareAtMostExact` | utils/common/uniswapUtils.ts:129-132 | a balance is valued at its exact share rounded down, within explicit bounds |
| `UniswapUtils.TokensInReserveAreShares` | utils/common/uniswapUtils.ts:118-133 | the two amounts valued are two truncations of reserve over supply times balance, each for its own reserve, for all signs |
| `UniswapUtils.DepositRoundTripNeverProfits` | utils/common/uniswapUtils.ts:9-133 | depositing and valuing the smaller share never shows a profit in either asset |
| `UniswapUtils.MoveDoesNotDilute` | utils/common/uniswapUtils.ts:9-133 | a deposit minting the smaller share, or a withdrawal, never shrinks the reserves behind a liquidity token |
| `UniswapUtils.RunsDoNotDilute` | utils/common/uniswapUtils.ts:9-133 | the same over any run of them, and the reserve product over the squared supply never falls |
| `UniswapUtils.CalculateRebalanceQuantity` | utils/common/uniswapUtils.ts:83-116 | the asset worth more is sold, in the amount that evens the two out at the price, unless the caller fixes the amount |
| `DecimalOrder.ComparesLeadingDigits` | utils/common/uniswapUtils.ts:151-151 | comparing decimal strings compares the shorter number with as many leading digits of the longer |
| `DecimalOrder.JsMinIsMinIff` | utils/common/uniswapUtils.ts:162-167 | min as JavaScript evaluates it is the minimum exactly under a digit condition |
| `DecimalOrder.JsPositiveIsPositive` | utils/common/uniswapUtils.ts:111-113 | the comparison with zero is right for every integer |
| `UniswapAsEvaluated.JsSqrtGuard` | utils/common/uniswapUtils.ts:149-149 | the guard of the root holds exactly for 4 to 9 and longer numbers that do not begin with 1 or 2 |
| `UniswapAsEvaluated.JsSqrt` | utils/common/uniswapUtils.ts:145-160 | as JavaScript compares, the loop always ends, and the result is the root exactly for 1 to 9 |
| `UniswapAsEvaluated.LongGuessLess` | utils/common/uniswapUtils.ts:151-154 | beyond nine a guess that comes before its predecessor as a string has as many digits and is smaller |
| `UniswapAsEvaluated.FirstDepositMintsNothing` | utils/common/uniswapUtils.ts:16-27 | as evaluated, a pool without supply mints nothing, or fails exactly when a reserve is zero |
| `UniswapAsEvaluated.JsDepositIsFairIff` | utils/common/uniswapUtils.ts:16-27 | as evaluated, a live pool mints one of the two truncated shares; it mints the smaller, stays within both and does not dilute exactly when the digits of the shares agree |
| `UniswapAsEvaluated.JsDepositRoundTrip` | utils/common/uniswapUtils.ts:9-133 | under that condition depositing and valuing shows no profit |
| `UniswapAsEvaluated.JsDepositCanProfit` | utils/common/uniswapUtils.ts:9-133 | a deposit of 9 and 1000 into a thousand of each mints 1000 and is valued at 504 of the first |
| `UniswapAsEvaluated.JsRunsDoNotDiluteIff` | utils/common/uniswapUtils.ts:9-133 | in a run no step dilutes exactly when every deposit meets the condition, and then the whole run does not |
| `PerpV2Utils.CalculateUSDCTransferInPreciseUnits` | utils/common/perpV2Utils.ts:85-130 | for any positions and prices, the amount is the truncated share of the account fields that count, plus the quotes of longs minus those of shorts, plus a residue of negatively priced shorts |
| `PerpV2Utils.TransferInMeans` | utils/common/perpV2Utils.ts:85-130 | the share is two truncations of collateral, owed profit and net quote, with pending funding if included, over the supply times the quantity; each trade of a unit is quoted on the side of its sign |
| `PerpV2Utils.FieldsCountAlike` | utils/common/perpV2Utils.ts:93-106 | moving any amount from the collateral to another field that counts leaves the share unchanged, and pending funding changes it only if included |
| `PerpV2Utils.SpotPriceCancelsIff` | utils/common/perpV2Utils.ts:119-125 | the price cancels exactly when no short has a positive ideal quote |
| `PerpV2Utils.NonNegativePricesCancel` | utils/common/perpV2Utils.ts:119-125 | it cancels for all prices that are not negative |
| `PerpV2Utils.CalculateUSDCTransferOutPreciseUnits` | utils/common/perpV2Utils.ts:144-187 | the amount is the magnitude of the collateral's truncated share plus every realized profit, failing exactly for no supply or an empty position |
| `PerpV2Utils.TransferOutMeans` | utils/common/perpV2Utils.ts:144-187 | collateral, close ratio, reduced notional and signed quote are given by their truncations from the account and the position alone |
| `PerpV2Utils.CloseRatioBound` | utils/common/perpV2Utils.ts:166-170 | a redeemer closes the quantity's part of the unit, long or short, rounded down |
| `PerpV2Utils.FullCloseRealizesOpenNotional` | utils/common/perpV2Utils.ts:165-183 | trading the whole position realizes its whole open notional with the quote signed by its side |
| `PerpV2Utils.ShortCountsAsLongIff` | utils/common/perpV2Utils.ts:166-168 | a short counts as a long exactly when it is below one wei of unit |
| `PerpV2Utils.RedeemersCloseAtMostThePosition` | utils/common/perpV2Utils.ts:165-184 | redeemers of at most the supply together close at most the whole position and its open notional |
| `PerpV2Utils.RedeemersRealizeTheirPart` | utils/common/perpV2Utils.ts:165-184 | each close ratio and notional of a list of redeemers is that of the profit realized for its quantity |

## Left out

- Deployment, fixtures, account and unit-parsing helpers: no arithmetic to verify.
- The Solidity contracts: only the reference arithmetic that their tests compare against is modelled, except that a fee accrual scales the position multiplier as StreamingFeeModule.sol does.
- The quoting formulas of the routers: UniswapV2Library's getAmountIn and getAmountOut are not part of this repository. Quotes are arbitrary, and `CoherentQuotes` is assumed where prices and purchases must match; `ConstantProduct.dfy` shows that 0.3% constant-product pairs meet it.
- SetValuer: valuations are arbitrary, so value per Set over a run is stated against the valuation given at each step.
- getIssueSetForExactToken, getIssueExactSetFromToken, getRedeemExactSetForETH, the refund and USDC variants: the same loops with one more quote.
- calculateEngageQuantities, calculateRebalanceFlows, getReservesSafe, calculateLeverageRatios, calculateMaxIssueQuantity, getNetFundingGrowth, toUSDCDecimals: short formulas over the parts modelled.
- Lower-casing folds ASCII letters only; addresses are hexadecimal.
- RedemptionConservesReserve: assumes that the reserve taken does not exceed the notional held; RedemptionConservedIff is the exact condition.
- RunsStaySolvent: redemptions in a run take no more than the notional held, as the unsigned subtraction at line 1085 of CustomOracleNAVIssuanceModule.sol demands.
- Sqrt: compares integers as intended; JsSqrt is the loop as JavaScript evaluates it.
- CalculateLPTokensIssued: compares as intended; JsLPTokensIssued is the computation as JavaScript evaluates it.
- LiquidityAtMostShare: speaks of the intended minimum; JsDepositIsFairIff says when the evaluated one agrees.
- DepositRoundTripNeverProfits: speaks of the intended minimum; JsDepositRoundTrip and JsDepositCanProfit speak of the evaluated one.
- MoveDoesNotDilute: speaks of the intended minimum; JsDepositIsFairIff has the exact condition for the evaluated one.
- RunsDoNotDilute: speaks of the intended minimum, JsRunsDoNotDiluteIff of the evaluated one; withdrawals leave some liquidity behind, because a pair keeps its minimum liquidity.
