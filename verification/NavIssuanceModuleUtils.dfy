/** Issuing and redeeming Sets at net asset value: quantities, multipliers and position units. */
module NavIssuanceModuleUtils {
  import opened Arithmetic
  import opened BigNumbers
  import opened MathUtils

  function GetExpectedIssuePositionMultiplier(
      previousPositionMultiplier: int, previousSupply: int, currentSupply: int): int
  {
    var inflation := PreciseDivCeil(currentSupply - previousSupply, currentSupply);
    PreciseMul(previousPositionMultiplier, PRECISE_UNIT - inflation)
  }

  function GetExpectedRedeemPositionMultiplier(
      previousPositionMultiplier: int, previousSupply: int, currentSupply: int): int
    requires currentSupply != 0
  {
    var deflation := PreciseDiv(previousSupply - currentSupply, currentSupply);
    PreciseMul(previousPositionMultiplier, PRECISE_UNIT + deflation)
  }

  /** The manager and protocol fee percentages; every operation charges both. */
  datatype FeeRates = FeeRates(manager: int, protocol: int) {
    predicate Valid() {
      0 <= manager && 0 <= protocol && manager + protocol <= PRECISE_UNIT
    }
  }

  function GetExpectedPostFeeQuantity(quantity: int, fees: FeeRates): int {
    var managerFees := PreciseMul(quantity, fees.manager);
    var protocolDirectFees := PreciseMul(quantity, fees.protocol);
    quantity - managerFees - protocolDirectFees
  }

  function SubFeesAndPremium(quantity: int, fees: FeeRates, premium: int): int {
    var subFees := GetExpectedPostFeeQuantity(quantity, fees);
    subFees - PreciseMul(subFees, premium)
  }

  /** The value the Set has for its holders before the deposit counts. */
  function NetAssetValue(supply: int, valuation: int): int {
    PreciseMul(supply, valuation)
  }

  function NormalizedSubFees(quantity: int, baseUnits: int, fees: FeeRates): int
    requires baseUnits != 0
  {
    PreciseDiv(GetExpectedPostFeeQuantity(quantity, fees), baseUnits)
  }

  function NormalizedSubFeesAndPremium(quantity: int, baseUnits: int, fees: FeeRates, premium: int): int
    requires baseUnits != 0
  {
    PreciseDiv(SubFeesAndPremium(quantity, fees, premium), baseUnits)
  }

  function IssueDenominator(
      supply: int, valuation: int, baseUnits: int, quantity: int, fees: FeeRates, premium: int): int
    requires baseUnits != 0
  {
    NetAssetValue(supply, valuation) + NormalizedSubFees(quantity, baseUnits, fees)
    - NormalizedSubFeesAndPremium(quantity, baseUnits, fees, premium)
  }

  function GetExpectedSetTokenIssueQuantity(
      supply: int, valuation: int, baseUnits: int, quantity: int, fees: FeeRates, premium: int): int
    requires baseUnits != 0
    requires IssueDenominator(supply, valuation, baseUnits, quantity, fees, premium) != 0
  {
    PreciseDiv(
      PreciseMul(NormalizedSubFeesAndPremium(quantity, baseUnits, fees, premium), supply),
      IssueDenominator(supply, valuation, baseUnits, quantity, fees, premium))
  }

  /** The contracts store virtual units; converting a real unit there and back may lose some of it. */
  function RoundTripUnit(unit: int, multiplier: int): int
    requires multiplier != 0
  {
    PreciseDiv(PreciseMul(unit, multiplier), multiplier)
  }

  function GetExpectedIssuePositionUnit(
      previousUnits: int, issueQuantity: int, previousSupply: int, currentSupply: int,
      newPositionMultiplier: int, fees: FeeRates): int
    requires currentSupply != 0 && newPositionMultiplier != 0
  {
    var issueQuantitySubFees := GetExpectedPostFeeQuantity(issueQuantity, fees);
    var numerator := PreciseMul(previousSupply, previousUnits) + issueQuantitySubFees;
    RoundTripUnit(PreciseDiv(numerator, currentSupply), newPositionMultiplier)
  }

  /** The value redeemed, less the premium that stays with the other holders. */
  function RedeemedValue(quantity: int, valuation: int, premium: int): int {
    var notional := PreciseMul(valuation, quantity);
    notional - PreciseMulCeil(notional, premium)
  }

  function GetExpectedReserveRedeemQuantity(
      quantity: int, valuation: int, baseUnits: int, fees: FeeRates, premium: int): int
  {
    PreciseMul(GetExpectedPostFeeQuantity(RedeemedValue(quantity, valuation, premium), fees), baseUnits)
  }

  /** The reserve that leaves the Set on a redemption, fees included. */
  function TotalReserveBalance(quantity: int, valuation: int, baseUnits: int, premium: int): int {
    PreciseMul(RedeemedValue(quantity, valuation, premium), baseUnits)
  }

  function GetExpectedRedeemPositionUnit(
      previousUnits: int, quantity: int, valuation: int, baseUnits: int, previousSupply: int, currentSupply: int,
      newPositionMultiplier: int, premium: int): int
    requires currentSupply != 0 && newPositionMultiplier != 0
  {
    var numerator := PreciseMul(previousSupply, previousUnits) - TotalReserveBalance(quantity, valuation, baseUnits, premium);
    RoundTripUnit(PreciseDiv(numerator, currentSupply), newPositionMultiplier)
  }

  // ----- What each formula computes -----

  /** left is the quantity less two fees, each truncated on its own. */
  ghost predicate IsPostFee(left: int, quantity: int, fees: FeeRates) {
    exists manager, protocol ::
      && IsTruncated(manager, quantity * fees.manager, PRECISE_UNIT)
      && IsTruncated(protocol, quantity * fees.protocol, PRECISE_UNIT)
      && left == quantity - manager - protocol
  }

  /** issued is the deposit after fees and premium, normalized, times the supply, over the value held plus
      what the premium took, every step truncated. */
  ghost predicate IsIssued(
      issued: int, supply: int, valuation: int, baseUnits: int, quantity: int, fees: FeeRates, premium: int)
  {
    exists left, kept, nav, n1, n2, share ::
      IsIssuedBy(issued, supply, valuation, baseUnits, quantity, fees, premium, left, kept, nav, n1, n2, share)
  }

  ghost predicate IsIssuedBy(
      issued: int, supply: int, valuation: int, baseUnits: int, quantity: int, fees: FeeRates, premium: int,
      left: int, kept: int, nav: int, n1: int, n2: int, share: int)
  {
    && IsPostFee(left, quantity, fees)
    && IsTruncated(kept, left * premium, PRECISE_UNIT)
    && IsTruncated(nav, supply * valuation, PRECISE_UNIT)
    && IsTruncated(n1, left * PRECISE_UNIT, baseUnits)
    && IsTruncated(n2, (left - kept) * PRECISE_UNIT, baseUnits)
    && IsTruncated(share, n2 * supply, PRECISE_UNIT)
    && nav + n1 - n2 != 0
    && IsTruncated(issued, share * PRECISE_UNIT, nav + n1 - n2)
  }

  /** unit is the notional over the supply, made virtual with the multiplier and real again, truncating
      three times. */
  ghost predicate IsUnitOf(unit: int, notional: int, supply: int, multiplier: int) {
    exists realUnit, virtualUnit ::
      && IsTruncated(realUnit, notional * PRECISE_UNIT, supply)
      && IsTruncated(virtualUnit, realUnit * multiplier, PRECISE_UNIT)
      && IsTruncated(unit, virtualUnit * PRECISE_UNIT, multiplier)
  }

  /** redeemed is the value of the Sets, truncated, less a premium on it that is rounded up. */
  ghost predicate IsRedeemed(redeemed: int, quantity: int, valuation: int, premium: int) {
    exists notional ::
      && IsTruncated(notional, valuation * quantity, PRECISE_UNIT)
      && IsCeiling(notional - redeemed, notional * premium, PRECISE_UNIT)
  }

  /** payout is the redeemed value less both fees, in reserve units. */
  ghost predicate IsPayout(
      payout: int, quantity: int, valuation: int, baseUnits: int, fees: FeeRates, premium: int)
  {
    exists redeemed, left ::
      && IsRedeemed(redeemed, quantity, valuation, premium)
      && IsPostFee(left, redeemed, fees)
      && IsTruncated(payout, left * baseUnits, PRECISE_UNIT)
  }

  /** taken is the redeemed value before fees, in reserve units. */
  ghost predicate IsTaken(taken: int, quantity: int, valuation: int, baseUnits: int, premium: int) {
    exists redeemed ::
      && IsRedeemed(redeemed, quantity, valuation, premium)
      && IsTruncated(taken, redeemed * baseUnits, PRECISE_UNIT)
  }

  lemma PostFeeIsPostFee(quantity: int, fees: FeeRates)
    ensures IsPostFee(GetExpectedPostFeeQuantity(quantity, fees), quantity, fees)
  {
    hide PreciseMul, IsTruncated;
    PreciseMulTruncates(quantity, fees.manager);
    PreciseMulTruncates(quantity, fees.protocol);
  }

  /** The issued quantity is the one that the formula describes, for all signs. */
  lemma IssueQuantityIsIssued(
      supply: int, valuation: int, baseUnits: int, quantity: int, fees: FeeRates, premium: int)
    requires baseUnits != 0
    requires IssueDenominator(supply, valuation, baseUnits, quantity, fees, premium) != 0
    ensures IsIssued(
      GetExpectedSetTokenIssueQuantity(supply, valuation, baseUnits, quantity, fees, premium),
      supply, valuation, baseUnits, quantity, fees, premium)
  {
    hide PreciseMul, PreciseDiv, IsTruncated, IsPostFee, GetExpectedPostFeeQuantity;
    var left := GetExpectedPostFeeQuantity(quantity, fees);
    var kept, nav := PreciseMul(left, premium), NetAssetValue(supply, valuation);
    var n1, n2 := PreciseDiv(left, baseUnits), PreciseDiv(left - kept, baseUnits);
    var share := PreciseMul(n2, supply);
    PostFeeIsPostFee(quantity, fees);
    PreciseMulTruncates(left, premium);
    PreciseMulTruncates(supply, valuation);
    PreciseDivTruncates(left, baseUnits);
    PreciseDivTruncates(left - kept, baseUnits);
    PreciseMulTruncates(n2, supply);
    PreciseDivTruncates(share, nav + n1 - n2);
    assert IsIssuedBy(
      GetExpectedSetTokenIssueQuantity(supply, valuation, baseUnits, quantity, fees, premium),
      supply, valuation, baseUnits, quantity, fees, premium, left, kept, nav, n1, n2, share);
  }

  lemma RoundTripIsUnitOf(notional: int, supply: int, multiplier: int)
    requires supply != 0 && multiplier != 0
    ensures IsUnitOf(RoundTripUnit(PreciseDiv(notional, supply), multiplier), notional, supply, multiplier)
  {
    hide PreciseMul, PreciseDiv, IsTruncated;
    var realUnit := PreciseDiv(notional, supply);
    var virtualUnit := PreciseMul(realUnit, multiplier);
    PreciseDivTruncates(notional, supply);
    PreciseMulTruncates(realUnit, multiplier);
    PreciseDivTruncates(virtualUnit, multiplier);
  }

  /** The unit after an issuance comes from the notional held plus the deposit after fees. */
  lemma IssueUnitIsUnitOf(
      previousUnits: int, issueQuantity: int, previousSupply: int, currentSupply: int, multiplier: int, fees: FeeRates)
    requires currentSupply != 0 && multiplier != 0
    ensures exists held, left ::
      && IsTruncated(held, previousSupply * previousUnits, PRECISE_UNIT)
      && IsPostFee(left, issueQuantity, fees)
      && IsUnitOf(
           GetExpectedIssuePositionUnit(previousUnits, issueQuantity, previousSupply, currentSupply, multiplier, fees),
           held + left, currentSupply, multiplier)
  {
    hide PreciseMul, PreciseDiv, RoundTripUnit, GetExpectedPostFeeQuantity, IsTruncated, IsPostFee, IsUnitOf;
    var held, left := PreciseMul(previousSupply, previousUnits), GetExpectedPostFeeQuantity(issueQuantity, fees);
    PreciseMulTruncates(previousSupply, previousUnits);
    PostFeeIsPostFee(issueQuantity, fees);
    RoundTripIsUnitOf(held + left, currentSupply, multiplier);
  }

  lemma RedeemedValueIsRedeemed(quantity: int, valuation: int, premium: int)
    requires 0 <= quantity && 0 <= valuation && 0 <= premium
    ensures IsRedeemed(RedeemedValue(quantity, valuation, premium), quantity, valuation, premium)
  {
    hide PreciseMul, PreciseMulCeil, IsTruncated, IsCeiling;
    var notional := PreciseMul(valuation, quantity);
    MulFloor(valuation, quantity);
    PreciseMulTruncates(valuation, quantity);
    MulCeil(notional, premium);
    assert notional - RedeemedValue(quantity, valuation, premium) == PreciseMulCeil(notional, premium);
  }

  /** The payout and the reserve taken are those that the formulas describe. */
  lemma PayoutAndTaken(quantity: int, valuation: int, baseUnits: int, fees: FeeRates, premium: int)
    requires 0 <= quantity && 0 <= valuation && 0 <= premium
    ensures IsPayout(
      GetExpectedReserveRedeemQuantity(quantity, valuation, baseUnits, fees, premium),
      quantity, valuation, baseUnits, fees, premium)
    ensures IsTaken(TotalReserveBalance(quantity, valuation, baseUnits, premium), quantity, valuation, baseUnits, premium)
  {
    hide PreciseMul, RedeemedValue, GetExpectedPostFeeQuantity, IsTruncated, IsPostFee, IsRedeemed;
    var redeemed := RedeemedValue(quantity, valuation, premium);
    RedeemedValueIsRedeemed(quantity, valuation, premium);
    PostFeeIsPostFee(redeemed, fees);
    PreciseMulTruncates(GetExpectedPostFeeQuantity(redeemed, fees), baseUnits);
    PreciseMulTruncates(redeemed, baseUnits);
  }

  /** The unit after a redemption comes from the notional held less the reserve taken, negative if it
      must be. */
  lemma RedeemUnitIsUnitOf(
      previousUnits: int, quantity: int, valuation: int, baseUnits: int, previousSupply: int, currentSupply: int,
      multiplier: int, premium: int)
    requires currentSupply != 0 && multiplier != 0 && 0 <= quantity && 0 <= valuation && 0 <= premium
    ensures exists held, taken ::
      && IsTruncated(held, previousSupply * previousUnits, PRECISE_UNIT)
      && IsTaken(taken, quantity, valuation, baseUnits, premium)
      && IsUnitOf(
           GetExpectedRedeemPositionUnit(
             previousUnits, quantity, valuation, baseUnits, previousSupply, currentSupply, multiplier, premium),
           held - taken, currentSupply, multiplier)
  {
    hide PreciseMul, PreciseDiv, RoundTripUnit, TotalReserveBalance, IsTruncated, IsTaken, IsUnitOf;
    var held := PreciseMul(previousSupply, previousUnits);
    var taken := TotalReserveBalance(quantity, valuation, baseUnits, premium);
    PreciseMulTruncates(previousSupply, previousUnits);
    PayoutAndTaken(quantity, valuation, baseUnits, FeeRates(0, 0), premium);
    RoundTripIsUnitOf(held - taken, currentSupply, multiplier);
  }

  // ----- Fees -----

  /** What is left after both fees exceeds the exact remainder by less than two wei. */
  lemma PostFeeBounds(quantity: int, fees: FeeRates)
    requires 0 <= quantity && fees.Valid()
    ensures var left := GetExpectedPostFeeQuantity(quantity, fees);
      && 0 <= left <= quantity
      && quantity * (PRECISE_UNIT - fees.manager - fees.protocol) <= left * PRECISE_UNIT
      && left * PRECISE_UNIT < quantity * (PRECISE_UNIT - fees.manager - fees.protocol) + 2 * PRECISE_UNIT
  {
    MulFloor(quantity, fees.manager);
    MulFloor(quantity, fees.protocol);
    MulLe(0, PRECISE_UNIT - fees.manager - fees.protocol, quantity);
    var left := GetExpectedPostFeeQuantity(quantity, fees);
    assert quantity * (PRECISE_UNIT - fees.manager - fees.protocol)
        == quantity * PRECISE_UNIT - quantity * fees.manager - quantity * fees.protocol;
    CancelLe(0, left, PRECISE_UNIT);
  }

  /** One wei more of quantity leaves no less after fees exactly when it does not complete a wei of
      both fees at once: each fee is truncated on its own. */
  lemma PostFeeGrowsIff(quantity: int, fees: FeeRates)
    requires 0 <= quantity && fees.Valid()
    ensures GetExpectedPostFeeQuantity(quantity, fees) <= GetExpectedPostFeeQuantity(quantity + 1, fees)
       <==> !(PRECISE_UNIT <= quantity * fees.manager % PRECISE_UNIT + fees.manager
              && PRECISE_UNIT <= quantity * fees.protocol % PRECISE_UNIT + fees.protocol)
  {
    FeeStep(quantity, fees.manager);
    FeeStep(quantity, fees.protocol);
  }

  lemma FeeStep(quantity: int, fee: int)
    requires 0 <= quantity && 0 <= fee <= PRECISE_UNIT
    ensures PreciseMul(quantity + 1, fee)
         == PreciseMul(quantity, fee) + if PRECISE_UNIT <= quantity * fee % PRECISE_UNIT + fee then 1 else 0
  {
  }

  /** The quantity left never falls as the quantity grows exactly when one of the two fees is zero: with
      both, a quantity of one whole unit leaves less than one wei below it. */
  lemma PostFeeMonotoneIff(fees: FeeRates)
    requires fees.Valid()
    ensures (forall low, high :: 0 <= low <= high ==>
        GetExpectedPostFeeQuantity(low, fees) <= GetExpectedPostFeeQuantity(high, fees))
      <==> fees.manager == 0 || fees.protocol == 0
  {
    if fees.manager == 0 || fees.protocol == 0 {
      forall low, high | 0 <= low <= high
        ensures GetExpectedPostFeeQuantity(low, fees) <= GetExpectedPostFeeQuantity(high, fees)
      {
        FeeGrowsLess(low, high, fees.manager);
        FeeGrowsLess(low, high, fees.protocol);
      }
    } else {
      FeeAtUnit(fees.manager);
      FeeAtUnit(fees.protocol);
      assert GetExpectedPostFeeQuantity(PRECISE_UNIT, fees) < GetExpectedPostFeeQuantity(PRECISE_UNIT - 1, fees);
    }
  }

  lemma FeeGrowsLess(low: int, high: int, fee: int)
    requires 0 <= low <= high && 0 <= fee <= PRECISE_UNIT
    ensures PreciseMul(high, fee) - PreciseMul(low, fee) <= high - low
    ensures fee == 0 ==> PreciseMul(high, fee) == PreciseMul(low, fee) == 0
  {
    MulFloor(low, fee);
    MulFloor(high, fee);
    MulLe(fee, PRECISE_UNIT, high - low);
    assert high * fee == low * fee + (high - low) * fee;
  }

  lemma FeeAtUnit(fee: int)
    requires 0 < fee <= PRECISE_UNIT
    ensures PreciseMul(PRECISE_UNIT, fee) == fee && PreciseMul(PRECISE_UNIT - 1, fee) == fee - 1
  {
    assert (PRECISE_UNIT - 1) * fee == PRECISE_UNIT * fee - fee;
    FloorGe(PRECISE_UNIT * fee, PRECISE_UNIT, fee);
    FloorLe(PRECISE_UNIT * fee, PRECISE_UNIT, fee);
    FloorGe((PRECISE_UNIT - 1) * fee, PRECISE_UNIT, fee - 1);
    FloorLe((PRECISE_UNIT - 1) * fee, PRECISE_UNIT, fee - 1);
  }

  /** The smallest case: two wei, at half for each fee, leave nothing. */
  lemma PostFeeIsNotMonotone()
    ensures var half := FeeRates(PRECISE_UNIT / 2, PRECISE_UNIT / 2);
      half.Valid() && GetExpectedPostFeeQuantity(2, half) < GetExpectedPostFeeQuantity(1, half)
  {
  }

  // ----- Issuance -----

  ghost predicate IssueInputs(supply: int, valuation: int, baseUnits: int, quantity: int, fees: FeeRates, premium: int) {
    && 0 <= supply && 0 <= valuation && 0 < baseUnits && 0 <= quantity
    && fees.Valid() && 0 <= premium <= PRECISE_UNIT
  }

  lemma PremiumBounds(quantity: int, fees: FeeRates, premium: int)
    requires 0 <= quantity && fees.Valid() && 0 <= premium <= PRECISE_UNIT
    ensures 0 <= SubFeesAndPremium(quantity, fees, premium) <= GetExpectedPostFeeQuantity(quantity, fees) <= quantity
  {
    PostFeeBounds(quantity, fees);
    MulAtMost(GetExpectedPostFeeQuantity(quantity, fees), premium);
  }

  /** The three amounts an issuance compares, each rounded down from its exact value, and their order:
      the deposit after premium is at most the one before, so the denominator is at least the value
      held. */
  lemma NormalizedBounds(supply: int, valuation: int, baseUnits: int, quantity: int, fees: FeeRates, premium: int)
    requires IssueInputs(supply, valuation, baseUnits, quantity, fees, premium)
    ensures var nav := NetAssetValue(supply, valuation);
      var n1, n2 := NormalizedSubFees(quantity, baseUnits, fees), NormalizedSubFeesAndPremium(quantity, baseUnits, fees, premium);
      && 0 <= nav <= IssueDenominator(supply, valuation, baseUnits, quantity, fees, premium)
      && 0 <= n2 <= n1
      && IsFloor(nav, supply * valuation, PRECISE_UNIT)
      && IsFloor(n1, GetExpectedPostFeeQuantity(quantity, fees) * PRECISE_UNIT, baseUnits)
      && IsFloor(n2, SubFeesAndPremium(quantity, fees, premium) * PRECISE_UNIT, baseUnits)
  {
    hide PreciseMul, PreciseDiv, GetExpectedPostFeeQuantity, SubFeesAndPremium;
    PremiumBounds(quantity, fees, premium);
    DivideMono(SubFeesAndPremium(quantity, fees, premium), GetExpectedPostFeeQuantity(quantity, fees), baseUnits);
    DivideFloor(SubFeesAndPremium(quantity, fees, premium), baseUnits);
    DivideFloor(GetExpectedPostFeeQuantity(quantity, fees), baseUnits);
    MulFloor(supply, valuation);
  }

  /** The issuer's share of the enlarged Set is worth at most the deposit after fees and premium, and
      fewer than two roundings less than that. */
  lemma IssuerGetsAtMostDeposit(
      supply: int, valuation: int, baseUnits: int, quantity: int, fees: FeeRates, premium: int)
    requires IssueInputs(supply, valuation, baseUnits, quantity, fees, premium)
    requires IssueDenominator(supply, valuation, baseUnits, quantity, fees, premium) != 0
    ensures var issued := GetExpectedSetTokenIssueQuantity(supply, valuation, baseUnits, quantity, fees, premium);
      && 0 <= issued
      && (NetAssetValue(supply, valuation) + NormalizedSubFees(quantity, baseUnits, fees)) * issued
         <= NormalizedSubFeesAndPremium(quantity, baseUnits, fees, premium) * (supply + issued)
      && NormalizedSubFeesAndPremium(quantity, baseUnits, fees, premium) * supply
         < (issued + 1)
             * (NetAssetValue(supply, valuation) + NormalizedSubFees(quantity, baseUnits, fees)
                - NormalizedSubFeesAndPremium(quantity, baseUnits, fees, premium))
           + PRECISE_UNIT
  {
    NormalizedBounds(supply, valuation, baseUnits, quantity, fees, premium);
    hide PreciseDiv, PreciseMul, NetAssetValue, NormalizedSubFees, NormalizedSubFeesAndPremium;
    var n2 := NormalizedSubFeesAndPremium(quantity, baseUnits, fees, premium);
    var denominator := IssueDenominator(supply, valuation, baseUnits, quantity, fees, premium);
    var issued := GetExpectedSetTokenIssueQuantity(supply, valuation, baseUnits, quantity, fees, premium);
    MulFloor(n2, supply);
    DivideFloor(PreciseMul(n2, supply), denominator);
    ShareOfTotal(issued, denominator, n2, supply);
    assert (issued + 1) * denominator == issued * denominator + denominator;
  }

  lemma ShareOfTotal(issued: int, denominator: int, n2: int, supply: int)
    requires issued * denominator <= n2 * supply
    ensures (denominator + n2) * issued <= n2 * (supply + issued)
  {
  }

  lemma IssuedNonNegative(
      supply: int, valuation: int, baseUnits: int, quantity: int, fees: FeeRates, premium: int)
    requires IssueInputs(supply, valuation, baseUnits, quantity, fees, premium)
    requires IssueDenominator(supply, valuation, baseUnits, quantity, fees, premium) != 0
    ensures 0 <= GetExpectedSetTokenIssueQuantity(supply, valuation, baseUnits, quantity, fees, premium)
  {
    IssuerGetsAtMostDeposit(supply, valuation, baseUnits, quantity, fees, premium);
  }

  /** Issuance never lowers the value behind each existing Set. */
  lemma IssuanceDoesNotDilute(
      supply: int, valuation: int, baseUnits: int, quantity: int, fees: FeeRates, premium: int)
    requires IssueInputs(supply, valuation, baseUnits, quantity, fees, premium)
    requires IssueDenominator(supply, valuation, baseUnits, quantity, fees, premium) != 0
    ensures var issued := GetExpectedSetTokenIssueQuantity(supply, valuation, baseUnits, quantity, fees, premium);
      var nav := NetAssetValue(supply, valuation);
      (nav + NormalizedSubFees(quantity, baseUnits, fees)) * supply >= nav * (supply + issued)
  {
    NormalizedBounds(supply, valuation, baseUnits, quantity, fees, premium);
    IssuerGetsAtMostDeposit(supply, valuation, baseUnits, quantity, fees, premium);
    NoDilution(
      NetAssetValue(supply, valuation),
      NormalizedSubFees(quantity, baseUnits, fees),
      NormalizedSubFeesAndPremium(quantity, baseUnits, fees, premium),
      supply,
      GetExpectedSetTokenIssueQuantity(supply, valuation, baseUnits, quantity, fees, premium));
  }

  lemma NoDilution(nav: int, n1: int, n2: int, supply: int, issued: int)
    requires 0 <= n2 <= n1 && 0 <= supply && 0 <= issued
    requires (nav + n1) * issued <= n2 * (supply + issued)
    ensures (nav + n1) * supply >= nav * (supply + issued)
  {
  }

  /** Raising the premium never issues more Sets for the same deposit. */
  lemma IssuedFallsWithPremium(
      supply: int, valuation: int, baseUnits: int, quantity: int, fees: FeeRates, low: int, high: int)
    requires IssueInputs(supply, valuation, baseUnits, quantity, fees, low)
    requires low <= high <= PRECISE_UNIT
    requires IssueDenominator(supply, valuation, baseUnits, quantity, fees, low) != 0
    ensures IssueDenominator(supply, valuation, baseUnits, quantity, fees, high) != 0
    ensures GetExpectedSetTokenIssueQuantity(supply, valuation, baseUnits, quantity, fees, high)
         <= GetExpectedSetTokenIssueQuantity(supply, valuation, baseUnits, quantity, fees, low)
  {
    PremiumBounds(quantity, fees, low);
    PremiumBounds(quantity, fees, high);
    NormalizedBounds(supply, valuation, baseUnits, quantity, fees, low);
    NormalizedBounds(supply, valuation, baseUnits, quantity, fees, high);
    MulMono(low, high, GetExpectedPostFeeQuantity(quantity, fees));
    DivideMono(SubFeesAndPremium(quantity, fees, high), SubFeesAndPremium(quantity, fees, low), baseUnits);
    var n2High := NormalizedSubFeesAndPremium(quantity, baseUnits, fees, high);
    var n2Low := NormalizedSubFeesAndPremium(quantity, baseUnits, fees, low);
    MulMono(n2High, n2Low, supply);
    MulFloor(n2High, supply);
    DivideAntitone(
      PreciseMul(n2High, supply), PreciseMul(n2Low, supply),
      IssueDenominator(supply, valuation, baseUnits, quantity, fees, high),
      IssueDenominator(supply, valuation, baseUnits, quantity, fees, low));
  }

  lemma DivideAntitone(a: int, b: int, d: int, e: int)
    requires 0 <= a <= b && 0 < e <= d
    ensures PreciseDiv(a, d) <= PreciseDiv(b, e)
  {
    var q := PreciseDiv(a, d);
    DivideFloor(a, d);
    MulLe(e, d, q);
    FloorGe(b * PRECISE_UNIT, e, q);
  }

  // ----- Redemption -----

  lemma RedeemedValueBounds(quantity: int, valuation: int, premium: int)
    requires 0 <= quantity && 0 <= valuation && 0 <= premium <= PRECISE_UNIT
    ensures 0 <= RedeemedValue(quantity, valuation, premium) <= PreciseMul(valuation, quantity)
  {
    MulFloor(valuation, quantity);
    MulAtMost(PreciseMul(valuation, quantity), premium);
  }

  /** The redeemer is paid out of the reserve that leaves the Set, and never more than it. */
  lemma PayoutWithinReserveTaken(quantity: int, valuation: int, baseUnits: int, fees: FeeRates, premium: int)
    requires 0 <= quantity && 0 <= valuation && 0 <= baseUnits && fees.Valid() && 0 <= premium <= PRECISE_UNIT
    ensures 0 <= GetExpectedReserveRedeemQuantity(quantity, valuation, baseUnits, fees, premium)
              <= TotalReserveBalance(quantity, valuation, baseUnits, premium)
  {
    RedeemedValueBounds(quantity, valuation, premium);
    var redeemed := RedeemedValue(quantity, valuation, premium);
    PostFeeBounds(redeemed, fees);
    MulMono(GetExpectedPostFeeQuantity(redeemed, fees), redeemed, baseUnits);
    MulFloor(GetExpectedPostFeeQuantity(redeemed, fees), baseUnits);
  }

  /** The premium charged to an issuer rounds down, the one kept from a redeemer rounds up. */
  lemma PremiumRounding(quantity: int, valuation: int, fees: FeeRates, premium: int)
    requires 0 <= quantity && 0 <= valuation && fees.Valid() && 0 <= premium <= PRECISE_UNIT
    ensures var subFees := GetExpectedPostFeeQuantity(quantity, fees);
      IsFloor(subFees - SubFeesAndPremium(quantity, fees, premium), subFees * premium, PRECISE_UNIT)
    ensures var notional := PreciseMul(valuation, quantity);
      IsCeiling(notional - RedeemedValue(quantity, valuation, premium), notional * premium, PRECISE_UNIT)
  {
    PostFeeBounds(quantity, fees);
    MulFloor(GetExpectedPostFeeQuantity(quantity, fees), premium);
    MulFloor(valuation, quantity);
    MulCeil(PreciseMul(valuation, quantity), premium);
  }

  /** Without fees the redeemer is paid all of the reserve that leaves the Set. */
  lemma WithoutFeesAllIsPaid(quantity: int, valuation: int, baseUnits: int, premium: int)
    ensures GetExpectedReserveRedeemQuantity(quantity, valuation, baseUnits, FeeRates(0, 0), premium)
         == TotalReserveBalance(quantity, valuation, baseUnits, premium)
  {
  }

  /** A payout next to the exact value * keep * keepFees * baseUnits, in units of u to the fourth: the
      roundings take less than one wei of the payout, one of the value and one of the premium away,
      and the two fee roundings give back less than two. */
  ghost predicate BracketsExactValue(payout: int, value: int, keep: int, keepFees: int, baseUnits: int, u: int) {
    && ((value - u) * keep - u * u) * keepFees * baseUnits <= (payout + 1) * (u * (u * (u * u)))
    && payout * (u * (u * (u * u))) <= (value * keep * keepFees + 2 * (u * (u * u))) * baseUnits
  }

  /** The payout is next to the exact value of the Sets after premium and fees. */
  lemma PayoutBracketsExactValue(quantity: int, valuation: int, baseUnits: int, fees: FeeRates, premium: int)
    requires 0 <= quantity && 0 <= valuation && 0 <= baseUnits && fees.Valid() && 0 <= premium <= PRECISE_UNIT
    ensures BracketsExactValue(
      GetExpectedReserveRedeemQuantity(quantity, valuation, baseUnits, fees, premium), valuation * quantity,
      PRECISE_UNIT - premium, PRECISE_UNIT - fees.manager - fees.protocol, baseUnits, PRECISE_UNIT)
  {
    hide Div, PreciseMul, PreciseMulCeil, GetExpectedPostFeeQuantity, BracketsExactValue;
    var notional, redeemed := PreciseMul(valuation, quantity), RedeemedValue(quantity, valuation, premium);
    MulFloor(valuation, quantity);
    RedeemedValueBounds(quantity, valuation, premium);
    MulCeil(notional, premium);
    PostFeeBounds(redeemed, fees);
    MulFloor(GetExpectedPostFeeQuantity(redeemed, fees), baseUnits);
    var keep := PRECISE_UNIT - premium;
    assert notional * keep == notional * PRECISE_UNIT - notional * premium;
    BracketChain(
      valuation * quantity, notional, redeemed, GetExpectedPostFeeQuantity(redeemed, fees),
      GetExpectedReserveRedeemQuantity(quantity, valuation, baseUnits, fees, premium),
      PRECISE_UNIT, keep, PRECISE_UNIT - fees.manager - fees.protocol, baseUnits);
  }

  lemma BracketChain(value: int, notional: int, redeemed: int, left: int, payout: int, u: int, k: int, f: int, b: int)
    requires 0 < u && 0 <= k && 0 <= f && 0 <= b
    requires notional * u <= value < notional * u + u
    requires redeemed * u <= notional * k < redeemed * u + u
    requires redeemed * f <= left * u < redeemed * f + 2 * u
    requires payout * u <= left * b < payout * u + u
    ensures BracketsExactValue(payout, value, k, f, b, u)
  {
    var low, high, u2 := (value - u) * k, value * k, u * u;
    MulLe(0, u, u);
    MulLe(0, u2, u);
    BracketLink(value - u, notional, redeemed + 1, k, u);
    BracketLinkUp(notional, value, redeemed, k, u);
    BracketFees(low, redeemed, high, left, u, u2, f);
    BracketPayout((low - u2) * f, left, high * f + 2 * (u * u2), payout, u, u * u2, b);
  }

  lemma BracketLink(a: int, b: int, r: int, k: int, u: int)
    requires 0 < u && 0 <= k && a <= b * u && b * k <= r * u
    ensures a * k <= r * (u * u)
  {
  }

  lemma BracketLinkUp(a: int, b: int, r: int, k: int, u: int)
    requires 0 < u && 0 <= k && a * u <= b && r * u <= a * k
    ensures r * (u * u) <= b * k
  {
  }

  lemma BracketFees(low: int, redeemed: int, high: int, left: int, u: int, c: int, f: int)
    requires 0 < u && 0 <= c && 0 <= f
    requires low <= (redeemed + 1) * c && redeemed * c <= high
    requires redeemed * f <= left * u <= redeemed * f + 2 * u
    ensures (low - c) * f <= left * (u * c) <= high * f + 2 * (u * c)
  {
  }

  lemma BracketPayout(low: int, left: int, high: int, payout: int, u: int, c: int, b: int)
    requires 0 < u && 0 <= c && 0 <= b
    requires low <= left * c <= high
    requires payout * u <= left * b <= payout * u + u
    ensures low * b <= (payout + 1) * (u * c)
    ensures payout * (u * c) <= high * b
  {
  }

  /** Issuing for a deposit and redeeming the Sets received pays at most the deposit after its fees
      and premium, whatever the fees of the redemption, as long as the Set is not valued above
      what it holds. */
  lemma RoundTripNeverProfits(
      supply: int, valuation: int, baseUnits: int, quantity: int, fees: FeeRates, premium: int,
      laterValuation: int, laterFees: FeeRates, laterPremium: int)
    requires IssueInputs(supply, valuation, baseUnits, quantity, fees, premium)
    requires IssueDenominator(supply, valuation, baseUnits, quantity, fees, premium) != 0
    requires 0 <= laterValuation && laterFees.Valid() && 0 <= laterPremium <= PRECISE_UNIT
    requires laterValuation
        * (supply + GetExpectedSetTokenIssueQuantity(supply, valuation, baseUnits, quantity, fees, premium))
      <= PRECISE_UNIT * (NetAssetValue(supply, valuation) + NormalizedSubFees(quantity, baseUnits, fees))
    ensures GetExpectedReserveRedeemQuantity(
        GetExpectedSetTokenIssueQuantity(supply, valuation, baseUnits, quantity, fees, premium),
        laterValuation, baseUnits, laterFees, laterPremium)
      <= SubFeesAndPremium(quantity, fees, premium) <= quantity
  {
    hide Div, PreciseMul, PreciseDiv, PreciseMulCeil, GetExpectedPostFeeQuantity, SubFeesAndPremium;
    hide NetAssetValue, NormalizedSubFees, IssueDenominator, GetExpectedSetTokenIssueQuantity;
    var issued := GetExpectedSetTokenIssueQuantity(supply, valuation, baseUnits, quantity, fees, premium);
    var deposit := SubFeesAndPremium(quantity, fees, premium);
    var n2 := NormalizedSubFeesAndPremium(quantity, baseUnits, fees, premium);
    PremiumBounds(quantity, fees, premium);
    DivideFloor(deposit, baseUnits);
    IssuerGetsAtMostDeposit(supply, valuation, baseUnits, quantity, fees, premium);
    PayoutWithinReserveTaken(issued, laterValuation, baseUnits, laterFees, laterPremium);
    RedeemedValueBounds(issued, laterValuation, laterPremium);
    MulFloor(laterValuation, issued);
    var notional, redeemed := PreciseMul(laterValuation, issued), RedeemedValue(issued, laterValuation, laterPremium);
    if supply + issued == 0 {
      assert laterValuation * issued == 0;
      CancelLe(notional, n2, PRECISE_UNIT);
    } else {
      ShareWorth(
        laterValuation, issued, supply + issued, n2,
        NetAssetValue(supply, valuation) + NormalizedSubFees(quantity, baseUnits, fees), PRECISE_UNIT);
      CancelLe(notional, n2, PRECISE_UNIT);
    }
    MulFloor(redeemed, baseUnits);
    MulLe(redeemed, n2, baseUnits);
    CancelLe(TotalReserveBalance(issued, laterValuation, baseUnits, laterPremium), deposit, PRECISE_UNIT);
  }

  lemma ShareWorth(value: int, issued: int, total: int, n2: int, assets: int, u: int)
    requires 0 <= issued && 0 < total && 0 <= u
    requires assets * issued <= n2 * total
    requires value * total <= u * assets
    ensures value * issued <= n2 * u
  {
  }

  // ----- Position multiplier -----

  /** Rounding the inflation up on issue and the deflation down on redeem make both multipliers
      the same function of the two supplies. */
  lemma MultipliersAgree(multiplier: int, previousSupply: int, currentSupply: int)
    requires 0 <= previousSupply && 0 < currentSupply
    ensures previousSupply <= currentSupply ==>
      GetExpectedIssuePositionMultiplier(multiplier, previousSupply, currentSupply)
      == PreciseMul(multiplier, PreciseDiv(previousSupply, currentSupply))
    ensures currentSupply <= previousSupply ==>
      GetExpectedRedeemPositionMultiplier(multiplier, previousSupply, currentSupply)
      == PreciseMul(multiplier, PreciseDiv(previousSupply, currentSupply))
  {
    var q := PreciseDiv(previousSupply, currentSupply);
    DivideFloor(previousSupply, currentSupply);
    if previousSupply < currentSupply {
      var inflation := PreciseDivCeil(currentSupply - previousSupply, currentSupply);
      PreciseDivCeilIsCeiling(currentSupply - previousSupply, currentSupply);
      SandwichedQuotient(PRECISE_UNIT - inflation, q, previousSupply * PRECISE_UNIT, currentSupply) by {
        assert (PRECISE_UNIT - inflation) * currentSupply == PRECISE_UNIT * currentSupply - inflation * currentSupply;
      }
    }
    if currentSupply <= previousSupply {
      var deflation := PreciseDiv(previousSupply - currentSupply, currentSupply);
      DivideFloor(previousSupply - currentSupply, currentSupply);
      SandwichedQuotient(PRECISE_UNIT + deflation, q, previousSupply * PRECISE_UNIT, currentSupply) by {
        assert (PRECISE_UNIT + deflation) * currentSupply == PRECISE_UNIT * currentSupply + deflation * currentSupply;
      }
    }
    if previousSupply == currentSupply {
      SandwichedQuotient(PRECISE_UNIT, q, previousSupply * PRECISE_UNIT, currentSupply);
    }
  }

  lemma SandwichedQuotient(p: int, q: int, n: int, d: int)
    requires 0 < d && p * d <= n < p * d + d && q * d <= n < q * d + d
    ensures p == q
  {
    CancelLt(p, q + 1, d);
    CancelLt(q, p + 1, d);
  }

  /** One change of supply: an issuance if it grows, a redemption otherwise. */
  function NextMultiplier(multiplier: int, previousSupply: int, currentSupply: int): int
    requires currentSupply != 0
  {
    if previousSupply <= currentSupply
    then GetExpectedIssuePositionMultiplier(multiplier, previousSupply, currentSupply)
    else GetExpectedRedeemPositionMultiplier(multiplier, previousSupply, currentSupply)
  }

  predicate PositiveSupplies(supplies: seq<int>) {
    forall i :: 0 <= i < |supplies| ==> 0 < supplies[i]
  }

  /** The multiplier after the supply has gone through the whole list. */
  function RunMultiplier(multiplier: int, supplies: seq<int>): int
    requires supplies != [] && PositiveSupplies(supplies)
  {
    var n := |supplies| - 1;
    if n == 0 then multiplier
    else NextMultiplier(RunMultiplier(multiplier, supplies[..n]), supplies[n - 1], supplies[n])
  }

  lemma NextMultiplierBounds(multiplier: int, previousSupply: int, currentSupply: int)
    requires 0 <= multiplier && 0 <= previousSupply && 0 < currentSupply
    ensures var next := NextMultiplier(multiplier, previousSupply, currentSupply);
      && 0 <= next
      && next * currentSupply <= multiplier * previousSupply
      && multiplier * previousSupply * PRECISE_UNIT
         < next * currentSupply * PRECISE_UNIT + currentSupply * (multiplier + PRECISE_UNIT)
  {
    MultipliersAgree(multiplier, previousSupply, currentSupply);
    var q := PreciseDiv(previousSupply, currentSupply);
    DivideFloor(previousSupply, currentSupply);
    MulFloor(multiplier, q);
    MultiplierStep(multiplier, previousSupply, currentSupply, q, PreciseMul(multiplier, q), PRECISE_UNIT);
  }

  lemma MultiplierStep(m: int, s: int, t: int, q: int, next: int, u: int)
    requires 0 <= m && 0 < t && 0 < u
    requires q * t <= s * u < q * t + t
    requires next * u <= m * q < next * u + u
    ensures next * t <= m * s
    ensures m * s * u < next * t * u + t * (m + u)
  {
    CrossLe(next, m, t, s, u, q) by {
      assert t * q == q * t;
    }
    MultiplierTight(m, s, t, q, next, u);
  }

  lemma MultiplierTight(m: int, s: int, t: int, q: int, next: int, u: int)
    requires 0 <= m && 0 < t
    requires s * u < q * t + t && m * q < next * u + u
    ensures m * s * u < next * t * u + t * (m + u)
  {
  }

  /** next is the multiplier times the ratio of the supplies, the ratio truncated and then the product. */
  ghost predicate IsRescaled(next: int, multiplier: int, previousSupply: int, currentSupply: int) {
    exists ratio ::
      && IsTruncated(ratio, previousSupply * PRECISE_UNIT, currentSupply)
      && IsTruncated(next, multiplier * ratio, PRECISE_UNIT)
  }

  lemma NextIsRescaled(multiplier: int, previousSupply: int, currentSupply: int)
    requires 0 <= previousSupply && 0 < currentSupply
    ensures IsRescaled(
      NextMultiplier(multiplier, previousSupply, currentSupply), multiplier, previousSupply, currentSupply)
  {
    MultipliersAgree(multiplier, previousSupply, currentSupply);
    hide PreciseMul, PreciseDiv, IsTruncated, GetExpectedIssuePositionMultiplier, GetExpectedRedeemPositionMultiplier;
    PreciseDivTruncates(previousSupply, currentSupply);
    PreciseMulTruncates(multiplier, PreciseDiv(previousSupply, currentSupply));
  }

  /** Each change of supply in a run rescales the multiplier before it. */
  lemma RunRescalesEach(multiplier: int, supplies: seq<int>)
    requires 2 <= |supplies| && PositiveSupplies(supplies)
    ensures var n := |supplies| - 1;
      IsRescaled(
        RunMultiplier(multiplier, supplies), RunMultiplier(multiplier, supplies[..n]), supplies[n - 1], supplies[n])
    ensures RunMultiplier(multiplier, [supplies[0]]) == multiplier
  {
    hide NextMultiplier, IsRescaled;
    var n := |supplies| - 1;
    NextIsRescaled(RunMultiplier(multiplier, supplies[..n]), supplies[n - 1], supplies[n]);
  }

  /** Over any sequence of issues and redemptions multiplier times supply never increases, so the
      multiplier is never above its first value whenever the supply is back where it began. */
  lemma {:induction false} MultiplierTimesSupplyNeverGrows(multiplier: int, supplies: seq<int>)
    requires 0 <= multiplier && supplies != [] && PositiveSupplies(supplies)
    ensures 0 <= RunMultiplier(multiplier, supplies)
    ensures RunMultiplier(multiplier, supplies) * supplies[|supplies| - 1] <= multiplier * supplies[0]
    ensures supplies[0] <= supplies[|supplies| - 1] ==> RunMultiplier(multiplier, supplies) <= multiplier
  {
    var n := |supplies| - 1;
    if n != 0 {
      var before := RunMultiplier(multiplier, supplies[..n]);
      MultiplierTimesSupplyNeverGrows(multiplier, supplies[..n]);
      NextMultiplierBounds(before, supplies[n - 1], supplies[n]);
    }
    if supplies[0] <= supplies[n] {
      MulLe(supplies[0], supplies[n], multiplier);
      CancelLe(RunMultiplier(multiplier, supplies), multiplier, supplies[n]);
    }
  }

  // ----- Position units -----

  /** The real-to-virtual-to-real conversion only rounds down, by less than unit/multiplier + 1. */
  lemma RoundTripUnitBounds(unit: int, multiplier: int)
    requires 0 <= unit && 0 < multiplier
    ensures 0 <= RoundTripUnit(unit, multiplier) <= unit
    ensures unit * multiplier < (RoundTripUnit(unit, multiplier) + 1) * multiplier + PRECISE_UNIT
  {
  }

  /** A unit made from a notional: backed by it, and short of the exact ratio by less than
      unit/multiplier + 2. */
  lemma UnitFromNotional(notional: int, supply: int, multiplier: int)
    requires 0 <= notional && 0 < supply && 0 < multiplier
    ensures var unit := RoundTripUnit(PreciseDiv(notional, supply), multiplier);
      && 0 <= unit
      && unit * supply <= notional * PRECISE_UNIT
      && notional * PRECISE_UNIT * multiplier < (unit + 2) * multiplier * supply + PRECISE_UNIT * supply
  {
    hide PreciseDiv, RoundTripUnit;
    var exact := PreciseDiv(notional, supply);
    var unit := RoundTripUnit(exact, multiplier);
    DivideFloor(notional, supply);
    RoundTripUnitBounds(exact, multiplier);
    MulLe(unit, exact, supply);
    UnitTight(unit, exact, notional * PRECISE_UNIT, supply, multiplier, PRECISE_UNIT);
  }

  lemma UnitTight(unit: int, exact: int, n: int, supply: int, multiplier: int, u: int)
    requires 0 < supply && 0 < multiplier
    requires n < exact * supply + supply
    requires exact * multiplier < (unit + 1) * multiplier + u
    ensures n * multiplier < (unit + 2) * multiplier * supply + u * supply
  {
    MulLt(exact * multiplier, (unit + 1) * multiplier + u, supply);
    MulLt(n, exact * supply + supply, multiplier);
    assert (exact * supply + supply) * multiplier == exact * multiplier * supply + multiplier * supply;
    assert ((unit + 1) * multiplier + u) * supply + multiplier * supply == (unit + 2) * multiplier * supply + u * supply;
  }

  /** After an issuance the units claim no more than what was held plus the deposit after fees, and
      fall short of the exact ratio of that total to the supply by less than
      unit/multiplier + unit/supply + 2. */
  lemma IssueUnitBackedAndTight(
      previousUnits: int, issueQuantity: int, previousSupply: int, currentSupply: int, multiplier: int, fees: FeeRates)
    requires 0 <= previousUnits && 0 <= issueQuantity && 0 <= previousSupply
    requires 0 < currentSupply && 0 < multiplier && fees.Valid()
    ensures var unit := GetExpectedIssuePositionUnit(
        previousUnits, issueQuantity, previousSupply, currentSupply, multiplier, fees);
      var held := previousSupply * previousUnits + PRECISE_UNIT * GetExpectedPostFeeQuantity(issueQuantity, fees);
      && 0 <= unit
      && unit * currentSupply <= held
      && held * multiplier < (unit + 2) * multiplier * currentSupply + PRECISE_UNIT * currentSupply + PRECISE_UNIT * multiplier
  {
    var postFee := GetExpectedPostFeeQuantity(issueQuantity, fees);
    PostFeeBounds(issueQuantity, fees);
    MulFloor(previousSupply, previousUnits);
    var notional := PreciseMul(previousSupply, previousUnits) + postFee;
    UnitFromNotional(notional, currentSupply, multiplier);
    var held := previousSupply * previousUnits + PRECISE_UNIT * postFee;
    MulLt(held, notional * PRECISE_UNIT + PRECISE_UNIT, multiplier);
    assert (notional * PRECISE_UNIT + PRECISE_UNIT) * multiplier == notional * PRECISE_UNIT * multiplier + PRECISE_UNIT * multiplier;
  }

  /** How far a unit may fall below the one before, in units of supply * u * cur * multiplier: two wei, one
      wei of notional over the new supply, one wei of virtual unit, and the roundings of the valuation,
      the value held and the deposit on the issued share. */
  ghost predicate UnitKept(
      unit: int, previousUnits: int, supply: int, issued: int, baseUnits: int, multiplier: int, u: int)
  {
    var current := supply + issued;
    previousUnits * current * (supply * u) * multiplier
    < ((unit + 2) * multiplier * current + u * current + u * multiplier) * (supply * u)
      + issued * (supply + u) * baseUnits * multiplier
  }

  /** Issuing does not dilute the recorded units: for a Set valued at its own reserve units, the unit after
      issuing the quantity that is expected is at least the unit before, less those roundings. */
  lemma IssuanceKeepsUnit(
      previousUnits: int, baseUnits: int, quantity: int, supply: int, multiplier: int, fees: FeeRates, premium: int)
    requires 0 <= previousUnits && 0 < baseUnits && 0 < supply && 0 < multiplier
    requires IssueInputs(supply, PreciseDiv(previousUnits, baseUnits), baseUnits, quantity, fees, premium)
    requires IssueDenominator(supply, PreciseDiv(previousUnits, baseUnits), baseUnits, quantity, fees, premium) != 0
    ensures var issued := GetExpectedSetTokenIssueQuantity(
        supply, PreciseDiv(previousUnits, baseUnits), baseUnits, quantity, fees, premium);
      && 0 < supply + issued
      && UnitKept(
           GetExpectedIssuePositionUnit(previousUnits, quantity, supply, supply + issued, multiplier, fees),
           previousUnits, supply, issued, baseUnits, multiplier, PRECISE_UNIT)
  {
    hide PreciseMul, PreciseDiv, UnitKept, NetAssetValue, NormalizedSubFees, NormalizedSubFeesAndPremium;
    hide GetExpectedSetTokenIssueQuantity, GetExpectedIssuePositionUnit, GetExpectedPostFeeQuantity, IssueDenominator;
    var valuation := PreciseDiv(previousUnits, baseUnits);
    var issued := GetExpectedSetTokenIssueQuantity(supply, valuation, baseUnits, quantity, fees, premium);
    var nav, n1 := NetAssetValue(supply, valuation), NormalizedSubFees(quantity, baseUnits, fees);
    var postFee := GetExpectedPostFeeQuantity(quantity, fees);
    DivideFloor(previousUnits, baseUnits);
    NormalizedBounds(supply, valuation, baseUnits, quantity, fees, premium);
    IssuedNonNegative(supply, valuation, baseUnits, quantity, fees, premium);
    IssuanceDoesNotDilute(supply, valuation, baseUnits, quantity, fees, premium);
    IssueUnitBackedAndTight(previousUnits, quantity, supply, supply + issued, multiplier, fees);
    assert (nav + n1) * supply == nav * supply + n1 * supply && nav * (supply + issued) == nav * supply + nav * issued;
    DepositCoversIssued(previousUnits, baseUnits, valuation, nav, n1, postFee, supply, issued, PRECISE_UNIT);
    KeepsUnit(
      GetExpectedIssuePositionUnit(previousUnits, quantity, supply, supply + issued, multiplier, fees),
      previousUnits, postFee, supply, issued, baseUnits, multiplier, PRECISE_UNIT);
  }

  /** What the issued Sets claim, in reserve units, is covered by the deposit up to three roundings. */
  lemma DepositCoversIssued(
      units: int, b: int, v: int, nav: int, n1: int, postFee: int, supply: int, issued: int, u: int)
    requires 0 <= issued && 0 < supply && 0 < b && 0 < u
    requires units * u < v * b + b && supply * v < nav * u + u
    requires n1 * b <= postFee * u && nav * issued <= n1 * supply
    ensures units * issued * (supply * u) <= postFee * u * (supply * u) + issued * (supply + u) * b
  {
    var slack := (supply + u) * b;
    ClaimBelowValue(units, b, v, nav, supply, u);
    MulLe(supply * (units * u), nav * u * b + slack, issued);
    ValueOfIssued(nav, n1, postFee, supply, issued, b, u);
    assert supply * (units * u) * issued == units * issued * (supply * u);
    assert (nav * u * b + slack) * issued == nav * u * b * issued + issued * (supply + u) * b;
  }

  lemma ValueOfIssued(nav: int, n1: int, postFee: int, supply: int, issued: int, b: int, u: int)
    requires 0 < supply && 0 < b && 0 < u
    requires n1 * b <= postFee * u && nav * issued <= n1 * supply
    ensures nav * u * b * issued <= postFee * u * (supply * u)
  {
    MulLe(0, b, u);
    MulLe(0, supply, u);
    MulLe(nav * issued, n1 * supply, u * b);
    MulLe(n1 * b, postFee * u, supply * u);
    assert nav * u * b * issued == nav * issued * (u * b);
    assert n1 * supply * (u * b) == n1 * b * (supply * u);
  }

  lemma ClaimBelowValue(units: int, b: int, v: int, nav: int, supply: int, u: int)
    requires 0 < supply && 0 < b && 0 < u
    requires units * u < v * b + b && supply * v < nav * u + u
    ensures supply * (units * u) <= nav * u * b + (supply + u) * b
  {
    MulLe(units * u, v * b + b, supply);
    MulLe(supply * v, nav * u + u, b);
    assert supply * (units * u) == units * u * supply;
    assert (v * b + b) * supply == supply * v * b + supply * b;
    assert (nav * u + u) * b == nav * u * b + u * b;
    assert (supply + u) * b == supply * b + u * b;
  }

  lemma KeepsUnit(
      unit: int, units: int, postFee: int, supply: int, issued: int, b: int, multiplier: int, u: int)
    requires 0 < supply && 0 <= issued && 0 < multiplier && 0 < u
    requires units * issued * (supply * u) <= postFee * u * (supply * u) + issued * (supply + u) * b
    requires (supply * units + u * postFee) * multiplier
           < (unit + 2) * multiplier * (supply + issued) + u * (supply + issued) + u * multiplier
    ensures UnitKept(unit, units, supply, issued, b, multiplier, u)
  {
    var k, held, slack := supply * u, supply * units + u * postFee, issued * (supply + u) * b;
    MulLt(0, supply, u);
    ClaimsCovered(units, supply, issued, postFee, u, k, slack);
    ScaleBounds(
      units * (supply + issued) * k, held, slack,
      (unit + 2) * multiplier * (supply + issued) + u * (supply + issued) + u * multiplier, multiplier, k);
  }

  lemma ClaimsCovered(units: int, supply: int, issued: int, postFee: int, u: int, k: int, slack: int)
    requires units * issued * k <= postFee * u * k + slack
    ensures units * (supply + issued) * k <= (supply * units + u * postFee) * k + slack
  {
    assert units * (supply + issued) * k == units * supply * k + units * issued * k;
    assert (supply * units + u * postFee) * k == units * supply * k + postFee * u * k;
  }

  lemma ScaleBounds(claims: int, held: int, slack: int, bound: int, multiplier: int, k: int)
    requires 0 < multiplier && 0 < k && claims <= held * k + slack && held * multiplier < bound
    ensures claims * multiplier < bound * k + slack * multiplier
  {
    MulLe(claims, held * k + slack, multiplier);
    MulLt(held * multiplier, bound, k);
    assert (held * k + slack) * multiplier == held * multiplier * k + slack * multiplier;
  }

  ghost predicate RedeemInputs(
      quantity: int, valuation: int, baseUnits: int, fees: FeeRates, premium: int, previousUnits: int, previousSupply: int)
  {
    && 0 <= quantity && 0 <= valuation && 0 <= baseUnits && fees.Valid() && 0 <= premium <= PRECISE_UNIT
    && 0 <= previousUnits && 0 <= previousSupply
  }

  /** After a redemption the units left and the reserve paid out were all there before: this holds
      whenever the reserve taken does not exceed the notional held. */
  lemma RedemptionConservesReserve(
      previousUnits: int, quantity: int, valuation: int, baseUnits: int, previousSupply: int, currentSupply: int,
      multiplier: int, fees: FeeRates, premium: int)
    requires RedeemInputs(quantity, valuation, baseUnits, fees, premium, previousUnits, previousSupply)
    requires 0 < currentSupply && 0 < multiplier
    requires TotalReserveBalance(quantity, valuation, baseUnits, premium) <= PreciseMul(previousSupply, previousUnits)
    ensures var unit := GetExpectedRedeemPositionUnit(
        previousUnits, quantity, valuation, baseUnits, previousSupply, currentSupply, multiplier, premium);
      var payout := GetExpectedReserveRedeemQuantity(quantity, valuation, baseUnits, fees, premium);
      var left := previousSupply * previousUnits - PRECISE_UNIT * TotalReserveBalance(quantity, valuation, baseUnits, premium);
      && 0 <= unit
      && unit * currentSupply <= left
      && unit * currentSupply + PRECISE_UNIT * payout <= previousSupply * previousUnits
      && left * multiplier < (unit + 2) * multiplier * currentSupply + PRECISE_UNIT * currentSupply + PRECISE_UNIT * multiplier
  {
    var taken := TotalReserveBalance(quantity, valuation, baseUnits, premium);
    PayoutWithinReserveTaken(quantity, valuation, baseUnits, fees, premium);
    MulFloor(previousSupply, previousUnits);
    var notional := PreciseMul(previousSupply, previousUnits) - taken;
    UnitFromNotional(notional, currentSupply, multiplier);
    var left := previousSupply * previousUnits - PRECISE_UNIT * taken;
    MulLt(left, notional * PRECISE_UNIT + PRECISE_UNIT, multiplier);
    assert (notional * PRECISE_UNIT + PRECISE_UNIT) * multiplier == notional * PRECISE_UNIT * multiplier + PRECISE_UNIT * multiplier;
  }

  // ----- Redeeming more than is held -----

  lemma NegativeUnit(shortfall: int, supply: int, multiplier: int)
    requires 0 < shortfall && 0 < supply && 0 < multiplier
    ensures RoundTripUnit(PreciseDiv(-shortfall, supply), multiplier)
         == -RoundTripUnit(PreciseDiv(shortfall, supply), multiplier)
    ensures 0 <= RoundTripUnit(PreciseDiv(shortfall, supply), multiplier)
  {
    var unit := PreciseDiv(shortfall, supply);
    DivideFloor(shortfall, supply);
    RoundTripUnitBounds(unit, multiplier);
    MulFloor(unit, multiplier);
    Odd(shortfall * PRECISE_UNIT, supply);
    assert -unit * multiplier == -(unit * multiplier);
    Odd(unit * multiplier, PRECISE_UNIT);
    Odd(PreciseMul(unit, multiplier) * PRECISE_UNIT, multiplier);
  }

  lemma Odd(n: int, d: int)
    requires 0 <= n && 0 < d
    ensures Div(-n, d) == -Div(n, d)
  {
    if n == 0 {
      assert 0 / d == 0 by {
        FloorGe(0, d, 0);
        FloorLe(0, d, 0);
      }
    }
  }

  /** The claims left and the payout, next to what was there: the unit is not negative, and both
      together are no more than the units before. */
  ghost predicate Conserved(unit: int, payout: int, previousUnits: int, previousSupply: int, currentSupply: int) {
    0 <= unit && unit * currentSupply + PRECISE_UNIT * payout <= previousSupply * previousUnits
  }

  /** A redemption is conserved exactly when it takes no more than the notional held, or when fees keep
      the payout within that notional and the shortfall is so small that it rounds to no unit. */
  lemma RedemptionConservedIff(
      previousUnits: int, quantity: int, valuation: int, baseUnits: int, previousSupply: int, currentSupply: int,
      multiplier: int, fees: FeeRates, premium: int)
    requires RedeemInputs(quantity, valuation, baseUnits, fees, premium, previousUnits, previousSupply)
    requires 0 < currentSupply && 0 < multiplier
    ensures var unit := GetExpectedRedeemPositionUnit(
        previousUnits, quantity, valuation, baseUnits, previousSupply, currentSupply, multiplier, premium);
      var payout := GetExpectedReserveRedeemQuantity(quantity, valuation, baseUnits, fees, premium);
      var taken := TotalReserveBalance(quantity, valuation, baseUnits, premium);
      var held := PreciseMul(previousSupply, previousUnits);
      Conserved(unit, payout, previousUnits, previousSupply, currentSupply)
      <==> taken <= held
           || (payout <= held && RoundTripUnit(PreciseDiv(taken - held, currentSupply), multiplier) == 0)
  {
    var taken := TotalReserveBalance(quantity, valuation, baseUnits, premium);
    var held := PreciseMul(previousSupply, previousUnits);
    if taken <= held {
      RedemptionConservesReserve(
        previousUnits, quantity, valuation, baseUnits, previousSupply, currentSupply, multiplier, fees, premium);
    } else {
      hide PreciseMul, PreciseDiv, RoundTripUnit, TotalReserveBalance, GetExpectedReserveRedeemQuantity;
      NegativeUnit(taken - held, currentSupply, multiplier);
      MulFloor(previousSupply, previousUnits);
      assert held - taken == -(taken - held);
    }
  }

  /** Without fees the payout is all that is taken, so nothing beyond the notional held is conserved. */
  lemma FreeRedemptionConservedIff(
      previousUnits: int, quantity: int, valuation: int, baseUnits: int, previousSupply: int, currentSupply: int,
      multiplier: int, premium: int)
    requires RedeemInputs(quantity, valuation, baseUnits, FeeRates(0, 0), premium, previousUnits, previousSupply)
    requires 0 < currentSupply && 0 < multiplier
    ensures Conserved(
        GetExpectedRedeemPositionUnit(
          previousUnits, quantity, valuation, baseUnits, previousSupply, currentSupply, multiplier, premium),
        GetExpectedReserveRedeemQuantity(quantity, valuation, baseUnits, FeeRates(0, 0), premium),
        previousUnits, previousSupply, currentSupply)
      <==> TotalReserveBalance(quantity, valuation, baseUnits, premium) <= PreciseMul(previousSupply, previousUnits)
  {
    hide PreciseMul, TotalReserveBalance, GetExpectedReserveRedeemQuantity, GetExpectedRedeemPositionUnit, Conserved;
    WithoutFeesAllIsPaid(quantity, valuation, baseUnits, premium);
    RedemptionConservedIff(
      previousUnits, quantity, valuation, baseUnits, previousSupply, currentSupply, multiplier, FeeRates(0, 0), premium);
  }
}
