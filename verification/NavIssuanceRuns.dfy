/** Whole runs of issuances, redemptions and fee accruals of one Set against its reserve asset. */
module NavIssuanceRuns {
  import opened Arithmetic
  import opened BigNumbers
  import opened FeeModuleUtils
  import opened MathUtils
  import opened NavIssuanceModuleUtils

  /** The reserve is what the Set holds; supply, units and multiplier are what it records. paidIn
      and paidOut add up the deposits after fees and the payouts to redeemers. */
  datatype Vault = Vault(supply: int, units: int, multiplier: int, reserve: int, paidIn: int, paidOut: int)

  datatype Step =
    | Issue(deposit: int, valuation: int, baseUnits: int, fees: FeeRates, premium: int)
    | Redeem(quantity: int, valuation: int, baseUnits: int, fees: FeeRates, premium: int)
    | AccrueFee(inflationPercent: int)

  function SupplyAfter(v: Vault, step: Step): int
    requires step.Issue? ==> step.baseUnits != 0
    requires step.AccrueFee? ==> step.inflationPercent != PRECISE_UNIT
    requires step.Issue? ==>
      IssueDenominator(v.supply, step.valuation, step.baseUnits, step.deposit, step.fees, step.premium) != 0
  {
    match step
    case Issue(deposit, valuation, baseUnits, fees, premium) =>
      v.supply + GetExpectedSetTokenIssueQuantity(v.supply, valuation, baseUnits, deposit, fees, premium)
    case Redeem(quantity, _, _, _, _) =>
      v.supply - quantity
    case AccrueFee(inflationPercent) =>
      v.supply + GetStreamingFeeInflationAmount(inflationPercent, v.supply)
  }

  /** The inputs are in range, no division throws, and a redemption takes no more than is held. */
  ghost predicate Enabled(v: Vault, step: Step) {
    match step
    case Issue(deposit, valuation, baseUnits, fees, premium) =>
      && IssueInputs(v.supply, valuation, baseUnits, deposit, fees, premium)
      && IssueDenominator(v.supply, valuation, baseUnits, deposit, fees, premium) != 0
      && GetExpectedIssuePositionMultiplier(v.multiplier, v.supply, SupplyAfter(v, step)) != 0
    case Redeem(quantity, valuation, baseUnits, fees, premium) =>
      && RedeemInputs(quantity, valuation, baseUnits, fees, premium, v.units, v.supply)
      && quantity < v.supply
      && TotalReserveBalance(quantity, valuation, baseUnits, premium) <= PreciseMul(v.supply, v.units)
      && GetExpectedRedeemPositionMultiplier(v.multiplier, v.supply, v.supply - quantity) != 0
    case AccrueFee(inflationPercent) =>
      IsFee(inflationPercent) && PostFeeUnit(v.multiplier, inflationPercent) != 0
  }

  function Apply(v: Vault, step: Step): Vault
    requires Valid(v) && Enabled(v, step)
  {
    match step
    case Issue(deposit, valuation, baseUnits, fees, premium) =>
      IssuerGetsAtMostDeposit(v.supply, valuation, baseUnits, deposit, fees, premium);
      var supply := SupplyAfter(v, step);
      var multiplier := GetExpectedIssuePositionMultiplier(v.multiplier, v.supply, supply);
      var postFee := GetExpectedPostFeeQuantity(deposit, fees);
      Vault(
        supply,
        GetExpectedIssuePositionUnit(v.units, deposit, v.supply, supply, multiplier, fees),
        multiplier, v.reserve + postFee, v.paidIn + postFee, v.paidOut)
    case Redeem(quantity, valuation, baseUnits, fees, premium) =>
      var supply := SupplyAfter(v, step);
      var multiplier := GetExpectedRedeemPositionMultiplier(v.multiplier, v.supply, supply);
      Vault(
        supply,
        GetExpectedRedeemPositionUnit(v.units, quantity, valuation, baseUnits, v.supply, supply, multiplier, premium),
        multiplier,
        v.reserve - TotalReserveBalance(quantity, valuation, baseUnits, premium),
        v.paidIn,
        v.paidOut + GetExpectedReserveRedeemQuantity(quantity, valuation, baseUnits, fees, premium))
    case AccrueFee(inflationPercent) =>
      // the contract scales the multiplier as it scales the units
      Vault(
        SupplyAfter(v, step),
        PostFeeUnit(v.units, inflationPercent),
        PostFeeUnit(v.multiplier, inflationPercent),
        v.reserve, v.paidIn, v.paidOut)
  }

  ghost predicate Valid(v: Vault) {
    0 < v.supply && 0 <= v.units && 0 < v.multiplier
  }

  /** What the Sets claim is there: the recorded units never add up to more than the reserve. */
  ghost predicate Backed(v: Vault) {
    Valid(v) && v.units * v.supply <= PRECISE_UNIT * v.reserve
  }

  /** What a step keeps, from v to w. */
  ghost predicate Keeps(v: Vault, w: Vault) {
    && w.multiplier * w.supply <= v.multiplier * v.supply
    && w.units * w.supply + PRECISE_UNIT * (w.paidOut - v.paidOut)
       <= v.units * v.supply + PRECISE_UNIT * (w.paidIn - v.paidIn)
    && w.paidOut - v.paidOut <= v.reserve + (w.paidIn - v.paidIn) - w.reserve
    && v.paidIn <= w.paidIn && v.paidOut <= w.paidOut
  }

  /** What a step records: an issuance mints the expected quantity and keeps the deposit after fees, a
      redemption burns its quantity, pays the payout and parts with the reserve taken, an accrual mints
      the fee and moves nothing. */
  lemma StepRecords(v: Vault, step: Step)
    requires Valid(v) && Enabled(v, step)
    ensures var w := Apply(v, step);
      match step
      case Issue(deposit, valuation, baseUnits, fees, premium) =>
        && IsIssued(w.supply - v.supply, v.supply, valuation, baseUnits, deposit, fees, premium)
        && IsPostFee(w.reserve - v.reserve, deposit, fees)
        && w.paidIn - v.paidIn == w.reserve - v.reserve && w.paidOut == v.paidOut
      case Redeem(quantity, valuation, baseUnits, fees, premium) =>
        && w.supply == v.supply - quantity
        && IsTaken(v.reserve - w.reserve, quantity, valuation, baseUnits, premium)
        && IsPayout(w.paidOut - v.paidOut, quantity, valuation, baseUnits, fees, premium)
        && w.paidIn == v.paidIn
      case AccrueFee(p) =>
        && IsFloor(w.supply, v.supply * PRECISE_UNIT, PRECISE_UNIT - p)
        && AreRescaled([w.units, w.multiplier], [v.units, v.multiplier], p)
        && w.reserve == v.reserve && w.paidIn == v.paidIn && w.paidOut == v.paidOut
  {
    hide IsIssued, IsPostFee, IsTaken, IsPayout, IsFloor;
    match step
    case Issue(deposit, valuation, baseUnits, fees, premium) =>
      IssueQuantityIsIssued(v.supply, valuation, baseUnits, deposit, fees, premium);
      PostFeeIsPostFee(deposit, fees);
    case Redeem(quantity, valuation, baseUnits, fees, premium) =>
      PayoutAndTaken(quantity, valuation, baseUnits, fees, premium);
    case AccrueFee(p) =>
      InflatedSupply(p, v.supply);
      PostFeeUnitsAreRescaled([v.units, v.multiplier], p);
  }

  lemma StepKeeps(v: Vault, step: Step)
    requires Valid(v) && Enabled(v, step)
    ensures Valid(Apply(v, step)) && Keeps(v, Apply(v, step))
    ensures Backed(v) ==> Backed(Apply(v, step))
  {
    var w := Apply(v, step);
    match step
    case Issue(deposit, valuation, baseUnits, fees, premium) =>
      IssuerGetsAtMostDeposit(v.supply, valuation, baseUnits, deposit, fees, premium);
      NextMultiplierBounds(v.multiplier, v.supply, w.supply);
      IssueUnitBackedAndTight(v.units, deposit, v.supply, w.supply, w.multiplier, fees);
      PostFeeBounds(deposit, fees);
    case Redeem(quantity, valuation, baseUnits, fees, premium) =>
      RedeemMultiplierBounds(v.multiplier, v.supply, w.supply);
      RedemptionConservesReserve(
        v.units, quantity, valuation, baseUnits, v.supply, w.supply, w.multiplier, fees, premium);
      PayoutWithinReserveTaken(quantity, valuation, baseUnits, fees, premium);
    case AccrueFee(inflationPercent) =>
      InflatedSupply(inflationPercent, v.supply);
      AssetUnitShrinks(v.units, inflationPercent);
      AssetUnitShrinks(v.multiplier, inflationPercent);
      AssetClaimNeverGrows(v.units, inflationPercent, v.supply);
      AssetClaimNeverGrows(v.multiplier, inflationPercent, v.supply);
  }

  lemma RedeemMultiplierBounds(multiplier: int, previousSupply: int, currentSupply: int)
    requires 0 <= multiplier && 0 < currentSupply <= previousSupply
    ensures 0 <= GetExpectedRedeemPositionMultiplier(multiplier, previousSupply, currentSupply)
    ensures GetExpectedRedeemPositionMultiplier(multiplier, previousSupply, currentSupply) * currentSupply
         <= multiplier * previousSupply
  {
  }

  /** The list of vaults is a run: each is reached from the one before by an enabled step. */
  ghost predicate IsRun(vaults: seq<Vault>, steps: seq<Step>) {
    && |vaults| == |steps| + 1
    && Valid(vaults[0])
    && forall i :: 0 <= i < |steps| ==>
        Valid(vaults[i]) && Enabled(vaults[i], steps[i]) && vaults[i + 1] == Apply(vaults[i], steps[i])
  }

  /** Over any run of issuances, redemptions and fee accruals, at any valuations, fees and premiums: the
      claims of the Sets stay backed by the reserve, nothing is paid out that was not there or paid in, and
      multiplier times supply never increases. */
  lemma {:induction false} RunsStaySolvent(vaults: seq<Vault>, steps: seq<Step>)
    requires IsRun(vaults, steps)
    ensures var last := vaults[|steps|];
      && Valid(last) && Keeps(vaults[0], last)
      && (Backed(vaults[0]) ==> Backed(last) && 0 <= last.reserve)
  {
    var n := |steps|;
    if n != 0 {
      RunsStaySolvent(vaults[..n], steps[..n - 1]);
      hide Apply, Enabled;
      StepKeeps(vaults[n - 1], steps[n - 1]);
    }
    if Backed(vaults[n]) {
      MulLe(0, vaults[n].units, vaults[n].supply);
    }
  }

  /** How a shortfall hides: with no units recorded a redemption valued one to one still pays out in
      full, and when the supply is large enough the missing reserve is rounded away, so the new unit is
      zero instead of negative. RedemptionConservedIff says when this goes wrong in general. */
  lemma OverRedemptionIsNotConserved(quantity: int, supply: int)
    requires 0 < quantity && quantity * PRECISE_UNIT < supply
    ensures PreciseMul(supply + quantity, 0) < TotalReserveBalance(quantity, PRECISE_UNIT, PRECISE_UNIT, 0)
    ensures GetExpectedReserveRedeemQuantity(quantity, PRECISE_UNIT, PRECISE_UNIT, FeeRates(0, 0), 0) == quantity
    ensures GetExpectedRedeemPositionUnit(
        0, quantity, PRECISE_UNIT, PRECISE_UNIT, supply + quantity, supply, PRECISE_UNIT, 0) == 0
  {
    TimesOne(quantity);
    TimesZero(quantity);
    TimesZero(supply + quantity);
    assert RedeemedValue(quantity, PRECISE_UNIT, 0) == quantity;
    SmallShortfall(quantity, supply);
    TimesZero(PRECISE_UNIT);
  }

  lemma TimesOne(q: int)
    requires 0 < q
    ensures PreciseMul(PRECISE_UNIT, q) == PreciseMul(q, PRECISE_UNIT) == q
  {
  }

  lemma TimesZero(q: int)
    requires 0 <= q
    ensures PreciseMul(q, 0) == PreciseMul(0, q) == PreciseMulCeil(q, 0) == 0
  {
  }

  lemma SmallShortfall(quantity: int, supply: int)
    requires 0 < quantity && quantity * PRECISE_UNIT < supply
    ensures PreciseDiv(-quantity, supply) == 0 && PreciseDiv(0, PRECISE_UNIT) == 0
  {
  }
}
