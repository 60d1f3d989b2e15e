/** Streaming fees: the percentage accrued over time, the Sets minted for it, and the rescaled units. */
module FeeModuleUtils {
  import opened Arithmetic
  import opened BigNumbers
  import opened MathUtils
  import opened Wrappers

  function GetStreamingFee(
      feeStatePercentage: int, previousTimestamp: int, recentTimestamp: int, streamingFee: Option<int>): int
  {
    var accrualRate := if streamingFee.Some? then streamingFee.value else feeStatePercentage;
    Div((recentTimestamp - previousTimestamp) * accrualRate, ONE_YEAR_IN_SECONDS)
  }

  function GetStreamingFeeInflationAmount(inflationPercent: int, totalSupply: int): int
    requires inflationPercent != PRECISE_UNIT
  {
    Div(inflationPercent * totalSupply, PRECISE_UNIT - inflationPercent)
  }

  /** One position after a fee: assets shrink rounding down, debts shrink rounding away from zero. */
  function PostFeeUnit(unit: int, inflationPercent: int): int {
    if 0 <= unit then PreciseMul(unit, PRECISE_UNIT - inflationPercent)
    else PreciseMulCeilInt(unit, PRECISE_UNIT - inflationPercent)
  }

  function PostFeeUnits(preFeeUnits: seq<int>, inflationPercent: int): seq<int> {
    seq(|preFeeUnits|, i requires 0 <= i < |preFeeUnits| => PostFeeUnit(preFeeUnits[i], inflationPercent))
  }

  method GetPostFeePositionUnits(preFeeUnits: seq<int>, inflationPercent: int) returns (newUnits: seq<int>)
    ensures newUnits == PostFeeUnits(preFeeUnits, inflationPercent)
    ensures AreRescaled(newUnits, preFeeUnits, inflationPercent)
  {
    newUnits := [];
    for i := 0 to |preFeeUnits|
      invariant newUnits == PostFeeUnits(preFeeUnits[..i], inflationPercent)
    {
      if 0 <= preFeeUnits[i] {
        newUnits := newUnits + [PreciseMul(preFeeUnits[i], PRECISE_UNIT - inflationPercent)];
      } else {
        newUnits := newUnits + [PreciseMulCeilInt(preFeeUnits[i], PRECISE_UNIT - inflationPercent)];
      }
    }
    assert preFeeUnits[..|preFeeUnits|] == preFeeUnits;
    PostFeeUnitsAreRescaled(preFeeUnits, inflationPercent);
  }

  /** Each unit, in order, is its share of 10^18 - p out of 10^18, whatever p is: rounded toward zero for
      an asset, away from zero for a debt. */
  ghost predicate AreRescaled(newUnits: seq<int>, preFeeUnits: seq<int>, p: int) {
    && |newUnits| == |preFeeUnits|
    && forall i :: 0 <= i < |preFeeUnits| ==>
        if 0 <= preFeeUnits[i]
        then IsTruncated(newUnits[i], preFeeUnits[i] * (PRECISE_UNIT - p), PRECISE_UNIT)
        else IsAwayFromZero(newUnits[i], preFeeUnits[i] * (PRECISE_UNIT - p), PRECISE_UNIT)
  }

  lemma PostFeeUnitsAreRescaled(preFeeUnits: seq<int>, p: int)
    ensures AreRescaled(PostFeeUnits(preFeeUnits, p), preFeeUnits, p)
  {
    hide PreciseMul, PreciseMulCeilInt, IsTruncated, IsAwayFromZero;
    forall i | 0 <= i < |preFeeUnits|
      ensures if 0 <= preFeeUnits[i]
        then IsTruncated(PostFeeUnits(preFeeUnits, p)[i], preFeeUnits[i] * (PRECISE_UNIT - p), PRECISE_UNIT)
        else IsAwayFromZero(PostFeeUnits(preFeeUnits, p)[i], preFeeUnits[i] * (PRECISE_UNIT - p), PRECISE_UNIT)
    {
      PreciseMulTruncates(preFeeUnits[i], PRECISE_UNIT - p);
      PreciseMulCeilIntAwayFromZero(preFeeUnits[i], PRECISE_UNIT - p);
    }
  }

  // ----- One accrual -----

  /** The rate in force is the caller's, zero included, and the Set's own only when none is given; it is
      prorated over any interval, the fraction dropped. */
  lemma StreamingFeeProrates(
      feeStatePercentage: int, previousTimestamp: int, recentTimestamp: int, streamingFee: Option<int>)
    ensures var rate := match streamingFee case Some(rate) => rate case None => feeStatePercentage;
      IsTruncated(
        GetStreamingFee(feeStatePercentage, previousTimestamp, recentTimestamp, streamingFee),
        (recentTimestamp - previousTimestamp) * rate, ONE_YEAR_IN_SECONDS)
  {
    var rate := if streamingFee.Some? then streamingFee.value else feeStatePercentage;
    DivTruncates((recentTimestamp - previousTimestamp) * rate, ONE_YEAR_IN_SECONDS);
  }

  /** The fee is a yearly rate: over exactly one year it is the rate in force, which is the one given
      by the caller, zero included, and the Set's own only when none is given. */
  lemma OneYearAccruesTheRate(feeStatePercentage: int, timestamp: int, streamingFee: Option<int>)
    ensures GetStreamingFee(feeStatePercentage, timestamp, timestamp + ONE_YEAR_IN_SECONDS, streamingFee)
         == match streamingFee case Some(rate) => rate case None => feeStatePercentage
  {
  }

  predicate IsFee(inflationPercent: int) {
    0 <= inflationPercent < PRECISE_UNIT
  }

  /** The supply with the minted fee is the floor of supply / (1 - fee): the recipient gets the
      fee percentage of the enlarged supply, less than one wei of it lost. */
  lemma InflatedSupply(p: int, supply: int)
    requires IsFee(p) && 0 <= supply
    ensures var total := supply + GetStreamingFeeInflationAmount(p, supply);
      supply <= total && IsFloor(total, supply * PRECISE_UNIT, PRECISE_UNIT - p)
  {
    MulLe(0, p, supply);
    DivFloor(p * supply, PRECISE_UNIT - p);
    assert supply * (PRECISE_UNIT - p) + p * supply == supply * PRECISE_UNIT;
  }

  /** Of the enlarged supply, the minted Sets are at most the fee percentage. */
  lemma FeeShare(p: int, supply: int)
    requires IsFee(p) && 0 <= supply
    ensures var minted := GetStreamingFeeInflationAmount(p, supply);
      minted * PRECISE_UNIT <= p * (supply + minted) < (minted + 1) * PRECISE_UNIT
  {
    MulLe(0, p, supply);
    DivFloor(p * supply, PRECISE_UNIT - p);
  }

  lemma AssetUnitShrinks(unit: int, p: int)
    requires 0 <= unit && IsFee(p)
    ensures 0 <= PostFeeUnit(unit, p) <= unit
    ensures IsFloor(PostFeeUnit(unit, p), unit * (PRECISE_UNIT - p), PRECISE_UNIT)
  {
  }

  lemma DebtUnitShrinks(unit: int, p: int)
    requires unit < 0 && IsFee(p)
    ensures unit <= PostFeeUnit(unit, p) < 0
    ensures IsCeiling(-PostFeeUnit(unit, p), -unit * (PRECISE_UNIT - p), PRECISE_UNIT)
  {
  }

  /** The total claimed by an asset position never grows when the fee is taken. */
  lemma AssetClaimNeverGrows(unit: int, p: int, supply: int)
    requires 0 <= unit && IsFee(p) && 0 <= supply
    ensures PostFeeUnit(unit, p) * (supply + GetStreamingFeeInflationAmount(p, supply)) <= unit * supply
  {
    var u, total := PostFeeUnit(unit, p), supply + GetStreamingFeeInflationAmount(p, supply);
    AssetUnitShrinks(unit, p);
    InflatedSupply(p, supply);
    CrossLe(u, unit, total, supply, PRECISE_UNIT, PRECISE_UNIT - p);
  }

  /** A debt is under-counted by less than one more wei of supply would account for. */
  lemma DebtClaimHardlyShrinks(unit: int, p: int, supply: int)
    requires unit < 0 && IsFee(p) && 0 <= supply
    ensures Abs(PostFeeUnit(unit, p)) * (supply + GetStreamingFeeInflationAmount(p, supply) + 1) > Abs(unit) * supply
  {
    var d, u, total := -unit, -PostFeeUnit(unit, p), supply + GetStreamingFeeInflationAmount(p, supply) + 1;
    DebtUnitShrinks(unit, p);
    InflatedSupply(p, supply);
    CrossLt(u, d, total, supply, PRECISE_UNIT, PRECISE_UNIT - p);
  }

  // ----- Runs of accruals -----

  datatype Ledger = Ledger(supply: int, units: seq<int>)

  /** One accrual mints the fee on the current supply and rescales every position. */
  function Accrue(l: Ledger, p: int): Ledger
    requires p != PRECISE_UNIT
  {
    Ledger(l.supply + GetStreamingFeeInflationAmount(p, l.supply), PostFeeUnits(l.units, p))
  }

  /** An accrual enlarges the supply to the floor of supply / (1 - fee) and rescales every unit. */
  lemma AccrueMintsAndRescales(l: Ledger, p: int)
    requires IsFee(p) && 0 <= l.supply
    ensures IsFloor(Accrue(l, p).supply, l.supply * PRECISE_UNIT, PRECISE_UNIT - p)
    ensures AreRescaled(Accrue(l, p).units, l.units, p)
  {
    InflatedSupply(p, l.supply);
    PostFeeUnitsAreRescaled(l.units, p);
  }

  predicate AreFees(fees: seq<int>) {
    forall i :: 0 <= i < |fees| ==> IsFee(fees[i])
  }

  function AccrueAll(l: Ledger, fees: seq<int>): Ledger
    requires AreFees(fees)
  {
    if fees == [] then l else Accrue(AccrueAll(l, fees[..|fees| - 1]), fees[|fees| - 1])
  }

  /** Each fee of a run is charged on what the fees before it left. */
  lemma RunAccruesEach(l: Ledger, fees: seq<int>)
    requires 0 <= l.supply && AreFees(fees) && fees != []
    ensures var n := |fees| - 1;
      var before, after := AccrueAll(l, fees[..n]), AccrueAll(l, fees);
      && IsFloor(after.supply, before.supply * PRECISE_UNIT, PRECISE_UNIT - fees[n])
      && AreRescaled(after.units, before.units, fees[n])
    ensures AccrueAll(l, []) == l
  {
    var n := |fees| - 1;
    RunKeepsShape(l, fees[..n]);
    AccrueMintsAndRescales(AccrueAll(l, fees[..n]), fees[n]);
  }

  lemma {:induction false} RunKeepsShape(l: Ledger, fees: seq<int>)
    requires 0 <= l.supply && AreFees(fees)
    ensures l.supply <= AccrueAll(l, fees).supply
    ensures |AccrueAll(l, fees).units| == |l.units|
  {
    if fees != [] {
      var n := |fees| - 1;
      RunKeepsShape(l, fees[..n]);
      InflatedSupply(fees[n], AccrueAll(l, fees[..n]).supply);
    }
  }

  /** Over any run of accruals an asset position never claims more than it did at the start. */
  lemma {:induction false} AssetClaimsBounded(l: Ledger, fees: seq<int>, i: nat)
    requires 0 <= l.supply && AreFees(fees) && i < |l.units| && 0 <= l.units[i]
    ensures |AccrueAll(l, fees).units| == |l.units|
    ensures 0 <= AccrueAll(l, fees).units[i] <= l.units[i]
    ensures AccrueAll(l, fees).units[i] * AccrueAll(l, fees).supply <= l.units[i] * l.supply
  {
    RunKeepsShape(l, fees);
    if fees != [] {
      var n := |fees| - 1;
      var before := AccrueAll(l, fees[..n]);
      AssetClaimsBounded(l, fees[..n], i);
      RunKeepsShape(l, fees[..n]);
      AssetClaimNeverGrows(before.units[i], fees[n], before.supply);
      AssetUnitShrinks(before.units[i], fees[n]);
    }
  }

  /** Over any run of n accruals a debt position is under-counted by less than n of its first units. */
  lemma {:induction false} DebtClaimsKept(l: Ledger, fees: seq<int>, i: nat)
    requires 0 <= l.supply && AreFees(fees) && i < |l.units| && l.units[i] < 0
    ensures |AccrueAll(l, fees).units| == |l.units|
    ensures l.units[i] <= AccrueAll(l, fees).units[i] < 0
    ensures Abs(AccrueAll(l, fees).units[i]) * AccrueAll(l, fees).supply + |fees| * Abs(l.units[i])
            >= Abs(l.units[i]) * l.supply + |fees|
  {
    RunKeepsShape(l, fees);
    if fees != [] {
      var n := |fees| - 1;
      var before, after := AccrueAll(l, fees[..n]), AccrueAll(l, fees);
      DebtClaimsKept(l, fees[..n], i);
      RunKeepsShape(l, fees[..n]);
      DebtClaimHardlyShrinks(before.units[i], fees[n], before.supply);
      DebtUnitShrinks(before.units[i], fees[n]);
      DebtRunStep(n, -l.units[i], -before.units[i], -after.units[i], l.supply, before.supply, after.supply);
    }
  }

  lemma DebtRunStep(n: nat, first: int, before: int, after: int, s0: int, s1: int, s2: int)
    requires after <= first
    requires before * s1 + n * first >= first * s0 + n
    requires after * (s2 + 1) > before * s1
    ensures after * s2 + (n + 1) * first >= first * s0 + (n + 1)
  {
  }

  // ----- Splitting an interval -----

  predicate Increasing(timestamps: seq<int>) {
    forall i, j :: 0 <= i < j < |timestamps| ==> timestamps[i] <= timestamps[j]
  }

  /** The percentages charged when the fee is accrued at each of the timestamps in turn. */
  function Fees(rate: int, timestamps: seq<int>): seq<int>
    requires timestamps != []
  {
    seq(|timestamps| - 1, i requires 0 <= i < |timestamps| - 1 =>
      GetStreamingFee(rate, timestamps[i], timestamps[i + 1], None))
  }

  /** The fee of an interval: its length times the rate, over a year, truncated. */
  ghost predicate IsProrated(fee: int, rate: int, first: int, last: int) {
    IsTruncated(fee, (last - first) * rate, ONE_YEAR_IN_SECONDS)
  }

  /** The list has one percentage for each interval between neighbours, prorated over it. */
  lemma FeesProrate(rate: int, timestamps: seq<int>)
    requires timestamps != []
    ensures |Fees(rate, timestamps)| == |timestamps| - 1
    ensures forall i :: 0 <= i < |timestamps| - 1 ==>
      IsProrated(Fees(rate, timestamps)[i], rate, timestamps[i], timestamps[i + 1])
    ensures IsProrated(WholeFee(rate, timestamps), rate, timestamps[0], timestamps[|timestamps| - 1])
  {
    hide GetStreamingFee, IsProrated;
    forall i | 0 <= i < |timestamps| - 1
      ensures IsProrated(Fees(rate, timestamps)[i], rate, timestamps[i], timestamps[i + 1])
    {
      IntervalProrates(rate, timestamps[i], timestamps[i + 1]);
    }
    IntervalProrates(rate, timestamps[0], timestamps[|timestamps| - 1]);
  }

  lemma IntervalProrates(rate: int, first: int, last: int)
    ensures IsProrated(GetStreamingFee(rate, first, last, None), rate, first, last)
  {
    StreamingFeeProrates(rate, first, last, None);
  }

  function WholeFee(rate: int, timestamps: seq<int>): int
    requires timestamps != []
  {
    GetStreamingFee(rate, timestamps[0], timestamps[|timestamps| - 1], None)
  }

  /** Truncating piece by piece never charges a larger percentage than truncating once. */
  lemma {:induction false} PiecesChargeLess(rate: int, timestamps: seq<int>)
    requires timestamps != [] && Increasing(timestamps) && 0 <= rate
    ensures Sum(Fees(rate, timestamps)) <= WholeFee(rate, timestamps)
    ensures forall i :: 0 <= i < |timestamps| - 1 ==> 0 <= Fees(rate, timestamps)[i]
  {
    var n := |timestamps| - 1;
    if n == 0 {
      assert Fees(rate, timestamps) == [];
    } else {
      PiecesChargeLess(rate, timestamps[..n]);
      var last := GetStreamingFee(rate, timestamps[n - 1], timestamps[n], None);
      SplitFee(rate, timestamps[0], timestamps[n - 1], timestamps[n]);
      FeesSnoc(rate, timestamps);
      SumSnoc(Fees(rate, timestamps[..n]), last);
    }
  }

  lemma FeesSnoc(rate: int, timestamps: seq<int>)
    requires 2 <= |timestamps|
    ensures var n := |timestamps| - 1;
      Fees(rate, timestamps)
      == Fees(rate, timestamps[..n]) + [GetStreamingFee(rate, timestamps[n - 1], timestamps[n], None)]
  {
  }

  lemma SplitFee(rate: int, first: int, middle: int, last: int)
    requires 0 <= rate && first <= middle <= last
    ensures 0 <= GetStreamingFee(rate, first, middle, None) && 0 <= GetStreamingFee(rate, middle, last, None)
    ensures GetStreamingFee(rate, first, middle, None) + GetStreamingFee(rate, middle, last, None)
         <= GetStreamingFee(rate, first, last, None)
  {
  }

  /** However the percentages compound, the final supply stays under supply / (1 - their sum). */
  lemma {:induction false} CompoundedSupply(l: Ledger, fees: seq<int>)
    requires 0 <= l.supply && AreFees(fees) && Sum(fees) <= PRECISE_UNIT
    ensures AccrueAll(l, fees).supply * (PRECISE_UNIT - Sum(fees)) <= l.supply * PRECISE_UNIT
  {
    if fees != [] {
      var n := |fees| - 1;
      var s, p, before := Sum(fees[..n]), fees[n], AccrueAll(l, fees[..n]).supply;
      CompoundedSupply(l, fees[..n]);
      SumNonNegative(fees[..n]);
      RunKeepsShape(l, fees[..n]);
      InflatedSupply(p, before);
      CompoundStep(PRECISE_UNIT, s, p, l.supply, before, AccrueAll(l, fees).supply);
    }
  }

  lemma CompoundStep(u: int, s: int, p: int, first: int, before: int, after: int)
    requires 0 < u && 0 <= p && 0 <= s && s <= u && 0 <= after
    requires before * (u - s) <= first * u
    requires after * (u - p) <= before * u
    ensures after * (u - (s + p)) <= first * u
  {
  }

  /** Accruing at every timestamp of a list never ends with a larger supply than accruing once
      over the whole interval. */
  lemma AccrualSplitting(l: Ledger, rate: int, timestamps: seq<int>)
    requires 0 <= l.supply && 0 <= rate
    requires timestamps != [] && Increasing(timestamps)
    requires WholeFee(rate, timestamps) < PRECISE_UNIT
    ensures AreFees(Fees(rate, timestamps)) && IsFee(WholeFee(rate, timestamps))
    ensures l.supply <= AccrueAll(l, Fees(rate, timestamps)).supply <= Accrue(l, WholeFee(rate, timestamps)).supply
  {
    var fees, whole := Fees(rate, timestamps), WholeFee(rate, timestamps);
    PiecesChargeLess(rate, timestamps);
    SumNonNegative(fees);
    RunKeepsShape(l, fees);
    CompoundedSupply(l, fees);
    InflatedSupply(whole, l.supply);
    WholeDominates(PRECISE_UNIT, AccrueAll(l, fees).supply, Accrue(l, whole).supply, l.supply, Sum(fees), whole);
  }

  lemma WholeDominates(u: int, pieces: int, once: int, supply: int, sum: int, whole: int)
    requires 0 <= pieces && sum <= whole < u
    requires pieces * (u - sum) <= supply * u
    requires IsFloor(once, supply * u, u - whole)
    ensures pieces <= once
  {
    MulLe(u - whole, u - sum, pieces);
    assert (once + 1) * (u - whole) == once * (u - whole) + (u - whole);
    CancelLt(pieces, once + 1, u - whole);
  }
}
