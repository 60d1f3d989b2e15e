/** Settling perpetual positions on issuance and redemption: the collateral moved for a quantity of
    Sets, over any list of long and short positions. */
module PerpV2Utils {
  import opened Arithmetic
  import opened BigNumbers
  import opened MathUtils
  import opened Types
  import opened Wrappers

  datatype AccountInfo = AccountInfo(
    collateralBalance: int, owedRealizedPnl: int, pendingFundingPayments: int, netQuoteBalance: int)

  /** A position per Set, and the same position as held by the whole Set. */
  datatype PositionUnit = PositionUnit(baseToken: Address, baseUnit: int)
  datatype PositionNotional = PositionNotional(baseToken: Address, baseBalance: int, quoteBalance: int)

  /** What the exchange reports: deltaQuote(token, amount, isLong), and the spot price of a token. */
  datatype Exchange = Exchange(deltaQuote: (Address, int, bool) -> int, spotPrice: Address -> int)

  // ----- Issuance -----

  function CollateralValue(account: AccountInfo, includeFunding: bool): int {
    account.collateralBalance + account.owedRealizedPnl + account.netQuoteBalance
    + (if includeFunding then account.pendingFundingPayments else 0)
  }

  /** A position's base amount for the quantity; it counts as long when it is not negative. */
  function BaseTrade(position: PositionUnit, setQuantity: int): int {
    PreciseMul(position.baseUnit, setQuantity)
  }

  /** What the exchange quotes for the base amount, with the sign the Set pays: longs cost the quote,
      shorts bring it in. */
  function SignedQuote(exchange: Exchange, position: PositionUnit, setQuantity: int): int {
    var trade := BaseTrade(position, setQuantity);
    var quote := exchange.deltaQuote(position.baseToken, Abs(trade), 0 <= trade);
    if 0 <= trade then quote else -quote
  }

  function SignedQuotes(exchange: Exchange, positions: seq<PositionUnit>, setQuantity: int): seq<int> {
    seq(|positions|, i requires 0 <= i < |positions| => SignedQuote(exchange, positions[i], setQuantity))
  }

  /** A short position at a negative spot price: the one case in which the price matters. */
  function PriceResidue(exchange: Exchange, position: PositionUnit, setQuantity: int): int {
    var trade := BaseTrade(position, setQuantity);
    var idealQuote := PreciseMul(trade, exchange.spotPrice(position.baseToken));
    if trade < 0 && 0 < idealQuote then 2 * idealQuote else 0
  }

  function PriceResidues(exchange: Exchange, positions: seq<PositionUnit>, setQuantity: int): seq<int> {
    seq(|positions|, i requires 0 <= i < |positions| => PriceResidue(exchange, positions[i], setQuantity))
  }

  function CollateralShare(account: AccountInfo, includeFunding: bool, totalSupply: int, setQuantity: int): int
    requires totalSupply != 0
  {
    PreciseMul(PreciseDiv(CollateralValue(account, includeFunding), totalSupply), setQuantity)
  }

  // ----- What the amount transferred in means -----

  /** share is a quantity's part of a value held for the supply: a unit, truncated, times the quantity,
      truncated. */
  ghost predicate IsProRata(share: int, value: int, supply: int, quantity: int) {
    exists unit ::
      && IsTruncated(unit, value * PRECISE_UNIT, supply)
      && IsTruncated(share, unit * quantity, PRECISE_UNIT)
  }

  /** quote is what a position pays or earns for the quantity: the exchange is asked for the magnitude of
      the truncated base amount, on its side, and a short earns what it is quoted. */
  ghost predicate IsSignedQuote(quote: int, exchange: Exchange, position: PositionUnit, quantity: int) {
    exists trade ::
      && IsTruncated(trade, position.baseUnit * quantity, PRECISE_UNIT)
      && quote == if 0 <= trade
                  then exchange.deltaQuote(position.baseToken, trade, true)
                  else -exchange.deltaQuote(position.baseToken, -trade, false)
  }

  /** residue is what the spot price leaves: nothing, but for a short whose ideal quote is positive. */
  ghost predicate IsResidue(residue: int, exchange: Exchange, position: PositionUnit, quantity: int) {
    exists trade, ideal ::
      && IsTruncated(trade, position.baseUnit * quantity, PRECISE_UNIT)
      && IsTruncated(ideal, trade * exchange.spotPrice(position.baseToken), PRECISE_UNIT)
      && residue == if trade < 0 && 0 < ideal then 2 * ideal else 0
  }

  /** value is the amount for an account: its part of collateral, realized profit, net quotes and, if
      included, pending funding, plus the signed quotes and the residues of all positions. */
  ghost predicate IsTransferIn(
      value: int, account: AccountInfo, positions: seq<PositionUnit>, exchange: Exchange,
      supply: int, quantity: int, includeFunding: bool)
  {
    exists share: int, quotes: seq<int>, residues: seq<int> ::
      IsTransferInBy(value, account, positions, exchange, supply, quantity, includeFunding, share, quotes, residues)
  }

  ghost predicate IsTransferInBy(
      value: int, account: AccountInfo, positions: seq<PositionUnit>, exchange: Exchange,
      supply: int, quantity: int, includeFunding: bool, share: int, quotes: seq<int>, residues: seq<int>)
  {
    && IsProRata(
         share,
         account.collateralBalance + account.owedRealizedPnl + account.netQuoteBalance
         + (if includeFunding then account.pendingFundingPayments else 0),
         supply, quantity)
    && |quotes| == |residues| == |positions|
    && (forall i :: 0 <= i < |positions| ==> IsSignedQuote(quotes[i], exchange, positions[i], quantity))
    && (forall i :: 0 <= i < |positions| ==> IsResidue(residues[i], exchange, positions[i], quantity))
    && value == share + Sum(quotes) + Sum(residues)
  }

  lemma ProRataTruncatesTwice(value: int, supply: int, quantity: int)
    requires supply != 0
    ensures IsProRata(PreciseMul(PreciseDiv(value, supply), quantity), value, supply, quantity)
  {
    hide PreciseMul, PreciseDiv, IsTruncated;
    PreciseDivTruncates(value, supply);
    PreciseMulTruncates(PreciseDiv(value, supply), quantity);
  }

  lemma QuoteAndResidue(exchange: Exchange, position: PositionUnit, quantity: int)
    ensures IsSignedQuote(SignedQuote(exchange, position, quantity), exchange, position, quantity)
    ensures IsResidue(PriceResidue(exchange, position, quantity), exchange, position, quantity)
  {
    hide PreciseMul, IsTruncated;
    var trade := BaseTrade(position, quantity);
    PreciseMulTruncates(position.baseUnit, quantity);
    PreciseMulTruncates(trade, exchange.spotPrice(position.baseToken));
  }

  lemma TransferInMeans(
      account: AccountInfo, positions: seq<PositionUnit>, exchange: Exchange,
      supply: int, quantity: int, includeFunding: bool)
    requires supply != 0
    ensures IsTransferIn(
      CollateralShare(account, includeFunding, supply, quantity)
        + Sum(SignedQuotes(exchange, positions, quantity)) + Sum(PriceResidues(exchange, positions, quantity)),
      account, positions, exchange, supply, quantity, includeFunding)
  {
    hide PreciseMul, PreciseDiv, Sum, IsProRata, IsSignedQuote, IsResidue, SignedQuote, PriceResidue;
    var share := CollateralShare(account, includeFunding, supply, quantity);
    var quotes, residues := SignedQuotes(exchange, positions, quantity), PriceResidues(exchange, positions, quantity);
    ProRataTruncatesTwice(CollateralValue(account, includeFunding), supply, quantity);
    forall i | 0 <= i < |positions|
      ensures IsSignedQuote(quotes[i], exchange, positions[i], quantity)
      ensures IsResidue(residues[i], exchange, positions[i], quantity)
    {
      QuoteAndResidue(exchange, positions[i], quantity);
    }
    assert IsTransferInBy(
      share + Sum(quotes) + Sum(residues),
      account, positions, exchange, supply, quantity, includeFunding, share, quotes, residues);
  }

  /** Every field counts alike: moving an amount from the collateral to any other field that counts leaves
      the share as it is, and the pending funding counts exactly when it is included. */
  lemma FieldsCountAlike(account: AccountInfo, d: int, includeFunding: bool, supply: int, quantity: int)
    requires supply != 0
    ensures var less := account.(collateralBalance := account.collateralBalance - d);
      var share := CollateralShare(account, includeFunding, supply, quantity);
      var pending := account.pendingFundingPayments;
      && CollateralShare(less.(owedRealizedPnl := account.owedRealizedPnl + d), includeFunding, supply, quantity) == share
      && CollateralShare(less.(netQuoteBalance := account.netQuoteBalance + d), includeFunding, supply, quantity) == share
      && (includeFunding ==>
            CollateralShare(less.(pendingFundingPayments := pending + d), includeFunding, supply, quantity) == share)
      && (!includeFunding ==>
            CollateralShare(account.(pendingFundingPayments := pending + d), includeFunding, supply, quantity) == share)
  {
  }

  method CalculateUSDCTransferInPreciseUnits(
      account: AccountInfo, positions: seq<PositionUnit>, exchange: Exchange,
      totalSupply: int, setQuantity: int, includeFunding: bool)
    returns (r: Result<int>)
    ensures r.Err? <==> totalSupply == 0
    ensures r.Ok? ==>
      r.value == CollateralShare(account, includeFunding, totalSupply, setQuantity)
        + Sum(SignedQuotes(exchange, positions, setQuantity)) + Sum(PriceResidues(exchange, positions, setQuantity))
    ensures r.Ok? ==>
      IsTransferIn(r.value, account, positions, exchange, totalSupply, setQuantity, includeFunding)
  {
    hide Div, PreciseDiv, PreciseMul, Sum, IsTransferIn;
    var totalCollateralValue := account.collateralBalance + account.owedRealizedPnl + account.netQuoteBalance;
    if includeFunding {
      totalCollateralValue := totalCollateralValue + account.pendingFundingPayments;
    }
    if totalSupply == 0 {
      return Err(DivisionByZero);
    }
    var usdcAmountIn := PreciseMul(PreciseDiv(totalCollateralValue, totalSupply), setQuantity);
    ghost var quotes := SignedQuotes(exchange, positions, setQuantity);
    ghost var residues := PriceResidues(exchange, positions, setQuantity);
    SumNone(quotes[..0]);
    SumNone(residues[..0]);
    for i := 0 to |positions|
      invariant usdcAmountIn == CollateralShare(account, includeFunding, totalSupply, setQuantity)
        + Sum(quotes[..i]) + Sum(residues[..i])
    {
      var baseTradeQuantityNotional := PreciseMul(positions[i].baseUnit, setQuantity);
      var isLong := 0 <= baseTradeQuantityNotional;
      var deltaQuote := exchange.deltaQuote(positions[i].baseToken, Abs(baseTradeQuantityNotional), isLong);
      var idealQuote := PreciseMul(baseTradeQuantityNotional, exchange.spotPrice(positions[i].baseToken));
      var expectedSlippage := if isLong then deltaQuote - idealQuote else Abs(idealQuote) - deltaQuote;
      usdcAmountIn := usdcAmountIn + idealQuote + expectedSlippage;
      SumNext(quotes, i);
      SumNext(residues, i);
    }
    assert quotes[..|positions|] == quotes && residues[..|positions|] == residues;
    TransferInMeans(account, positions, exchange, totalSupply, setQuantity, includeFunding);
    return Ok(usdcAmountIn);
  }

  lemma SumNone(s: seq<int>)
    requires s == []
    ensures Sum(s) == 0
  {
  }

  lemma SumNext(s: seq<int>, i: nat)
    requires i < |s|
    ensures Sum(s[..i + 1]) == Sum(s[..i]) + s[i]
  {
    assert s[..i + 1] == s[..i] + [s[i]];
    SumSnoc(s[..i], s[i]);
  }

  lemma {:induction false} SumIsZeroIff(s: seq<int>)
    requires forall i :: 0 <= i < |s| ==> 0 <= s[i]
    ensures 0 <= Sum(s)
    ensures Sum(s) == 0 <==> forall i :: 0 <= i < |s| ==> s[i] == 0
  {
    if s != [] {
      var n := |s| - 1;
      SumIsZeroIff(s[..n]);
      if forall i :: 0 <= i < |s| ==> s[i] == 0 {
        assert forall i :: 0 <= i < n ==> s[..n][i] == s[i];
      }
      if Sum(s) == 0 {
        assert forall i :: 0 <= i < n ==> s[i] == s[..n][i];
      }
    }
  }

  /** The spot price cancels out of the amount transferred in, leaving the collateral share plus the
      quotes of the longs minus those of the shorts, exactly when no short is priced so that its
      ideal quote is positive. */
  lemma SpotPriceCancelsIff(exchange: Exchange, positions: seq<PositionUnit>, setQuantity: int)
    ensures Sum(PriceResidues(exchange, positions, setQuantity)) == 0
       <==> forall i :: 0 <= i < |positions| && BaseTrade(positions[i], setQuantity) < 0 ==>
              PreciseMul(BaseTrade(positions[i], setQuantity), exchange.spotPrice(positions[i].baseToken)) <= 0
  {
    SumIsZeroIff(PriceResidues(exchange, positions, setQuantity));
    var residues := PriceResidues(exchange, positions, setQuantity);
    if Sum(residues) == 0 {
      forall i | 0 <= i < |positions| ensures PriceResidue(exchange, positions[i], setQuantity) == 0 {
        assert residues[i] == 0;
      }
    }
  }

  /** In particular it cancels for all prices that are not negative. */
  lemma NonNegativePricesCancel(exchange: Exchange, positions: seq<PositionUnit>, setQuantity: int)
    requires forall i :: 0 <= i < |positions| ==> 0 <= exchange.spotPrice(positions[i].baseToken)
    ensures Sum(PriceResidues(exchange, positions, setQuantity)) == 0
  {
    forall i | 0 <= i < |positions| && BaseTrade(positions[i], setQuantity) < 0
      ensures PreciseMul(BaseTrade(positions[i], setQuantity), exchange.spotPrice(positions[i].baseToken)) <= 0
    {
      var trade, price := BaseTrade(positions[i], setQuantity), exchange.spotPrice(positions[i].baseToken);
      MulLe(trade, 0, price);
      PreciseMulTruncates(trade, price);
    }
    SpotPriceCancelsIff(exchange, positions, setQuantity);
  }

  // ----- Redemption -----

  function CollateralBalance(account: AccountInfo, includeFunding: bool): int {
    account.collateralBalance + account.owedRealizedPnl
    + (if includeFunding then account.pendingFundingPayments else 0)
  }

  function BasePositionUnit(position: PositionNotional, totalSupply: int): int
    requires totalSupply != 0
  {
    PreciseDiv(position.baseBalance, totalSupply)
  }

  function BaseTradeOut(position: PositionNotional, totalSupply: int, setQuantity: int): int
    requires totalSupply != 0
  {
    PreciseMul(BasePositionUnit(position, totalSupply), setQuantity)
  }

  /** The part of the position that the redemption closes. */
  function CloseRatio(position: PositionNotional, totalSupply: int, setQuantity: int): int
    requires totalSupply != 0 && position.baseBalance != 0
  {
    PreciseDiv(Abs(BaseTradeOut(position, totalSupply, setQuantity)), Abs(position.baseBalance))
  }

  function ReducedOpenNotional(position: PositionNotional, totalSupply: int, setQuantity: int): int
    requires totalSupply != 0 && position.baseBalance != 0
  {
    PreciseMul(position.quoteBalance, CloseRatio(position, totalSupply, setQuantity))
  }

  function RealizedPnl(exchange: Exchange, position: PositionNotional, totalSupply: int, setQuantity: int): int
    requires totalSupply != 0 && position.baseBalance != 0
  {
    var isLong := 0 <= BasePositionUnit(position, totalSupply);
    var quote := exchange.deltaQuote(
      position.baseToken, Abs(BaseTradeOut(position, totalSupply, setQuantity)), !isLong);
    ReducedOpenNotional(position, totalSupply, setQuantity) + (if isLong then quote else -quote)
  }

  predicate Open(positions: seq<PositionNotional>) {
    forall i :: 0 <= i < |positions| ==> positions[i].baseBalance != 0
  }

  function RealizedPnls(exchange: Exchange, positions: seq<PositionNotional>, totalSupply: int, setQuantity: int): seq<int>
    requires totalSupply != 0 && Open(positions)
  {
    seq(|positions|, i requires 0 <= i < |positions| => RealizedPnl(exchange, positions[i], totalSupply, setQuantity))
  }

  // ----- What the amount transferred out means -----

  /** pnl is what closing the quantity's part of a position realizes: the base amount from the truncated
      unit, the part of the position it is, that part of the open notional, and the quote for trading it
      on the other side, which a long earns and a short pays. */
  ghost predicate IsRealizedPnl(
      pnl: int, exchange: Exchange, position: PositionNotional, supply: int, quantity: int)
  {
    exists unit, trade, ratio, notional ::
      IsRealizedPnlBy(pnl, exchange, position, supply, quantity, unit, trade, ratio, notional)
  }

  ghost predicate IsRealizedPnlBy(
      pnl: int, exchange: Exchange, position: PositionNotional, supply: int, quantity: int,
      unit: int, trade: int, ratio: int, notional: int)
  {
    && IsTruncated(unit, position.baseBalance * PRECISE_UNIT, supply)
    && IsTruncated(trade, unit * quantity, PRECISE_UNIT)
    && IsTruncated(ratio, Abs(trade) * PRECISE_UNIT, Abs(position.baseBalance))
    && IsTruncated(notional, position.quoteBalance * ratio, PRECISE_UNIT)
    && pnl == if 0 <= unit
              then notional + exchange.deltaQuote(position.baseToken, Abs(trade), false)
              else notional - exchange.deltaQuote(position.baseToken, Abs(trade), true)
  }

  /** value is the amount for an account: the magnitude of its part of collateral, realized profit and, if
      included, pending funding, plus what all positions realize. Net quotes do not count here. */
  ghost predicate IsTransferOut(
      value: int, account: AccountInfo, positions: seq<PositionNotional>, exchange: Exchange,
      supply: int, quantity: int, includeFunding: bool)
  {
    exists share: int, pnls: seq<int> ::
      IsTransferOutBy(value, account, positions, exchange, supply, quantity, includeFunding, share, pnls)
  }

  ghost predicate IsTransferOutBy(
      value: int, account: AccountInfo, positions: seq<PositionNotional>, exchange: Exchange,
      supply: int, quantity: int, includeFunding: bool, share: int, pnls: seq<int>)
  {
    && IsProRata(
         share,
         account.collateralBalance + account.owedRealizedPnl
         + (if includeFunding then account.pendingFundingPayments else 0),
         supply, quantity)
    && |pnls| == |positions|
    && (forall i :: 0 <= i < |positions| ==> IsRealizedPnl(pnls[i], exchange, positions[i], supply, quantity))
    && value == Abs(share + Sum(pnls))
  }

  lemma PnlIsRealizedBy(exchange: Exchange, position: PositionNotional, supply: int, quantity: int)
    requires supply != 0 && position.baseBalance != 0
    ensures IsRealizedPnlBy(
      RealizedPnl(exchange, position, supply, quantity), exchange, position, supply, quantity,
      BasePositionUnit(position, supply), BaseTradeOut(position, supply, quantity),
      CloseRatio(position, supply, quantity), ReducedOpenNotional(position, supply, quantity))
  {
    hide PreciseMul, PreciseDiv, IsTruncated;
    var unit, trade := BasePositionUnit(position, supply), BaseTradeOut(position, supply, quantity);
    PreciseDivTruncates(position.baseBalance, supply);
    PreciseMulTruncates(unit, quantity);
    PreciseDivTruncates(Abs(trade), Abs(position.baseBalance));
    PreciseMulTruncates(position.quoteBalance, CloseRatio(position, supply, quantity));
  }

  lemma PnlIsRealized(exchange: Exchange, position: PositionNotional, supply: int, quantity: int)
    requires supply != 0 && position.baseBalance != 0
    ensures IsRealizedPnl(RealizedPnl(exchange, position, supply, quantity), exchange, position, supply, quantity)
  {
    PnlIsRealizedBy(exchange, position, supply, quantity);
    hide IsRealizedPnlBy;
  }

  lemma TransferOutMeans(
      account: AccountInfo, positions: seq<PositionNotional>, exchange: Exchange,
      supply: int, quantity: int, includeFunding: bool)
    requires supply != 0 && Open(positions)
    ensures IsTransferOut(
      Abs(PreciseMul(PreciseDiv(CollateralBalance(account, includeFunding), supply), quantity)
          + Sum(RealizedPnls(exchange, positions, supply, quantity))),
      account, positions, exchange, supply, quantity, includeFunding)
  {
    hide PreciseMul, PreciseDiv, Sum, IsProRata, IsRealizedPnl, RealizedPnl;
    var share := PreciseMul(PreciseDiv(CollateralBalance(account, includeFunding), supply), quantity);
    var pnls := RealizedPnls(exchange, positions, supply, quantity);
    ProRataTruncatesTwice(CollateralBalance(account, includeFunding), supply, quantity);
    forall i | 0 <= i < |positions| ensures IsRealizedPnl(pnls[i], exchange, positions[i], supply, quantity) {
      PnlIsRealized(exchange, positions[i], supply, quantity);
    }
    assert IsTransferOutBy(
      Abs(share + Sum(pnls)), account, positions, exchange, supply, quantity, includeFunding, share, pnls);
  }

  lemma NoPnl(exchange: Exchange, positions: seq<PositionNotional>, totalSupply: int, setQuantity: int)
    requires totalSupply != 0 && positions == []
    ensures Sum(RealizedPnls(exchange, positions, totalSupply, setQuantity)) == 0
  {
  }

  lemma RealizedPnlsSnoc(
      exchange: Exchange, positions: seq<PositionNotional>, i: nat, totalSupply: int, setQuantity: int)
    requires totalSupply != 0 && i < |positions| && Open(positions[..i]) && positions[i].baseBalance != 0
    ensures Open(positions[..i + 1])
    ensures Sum(RealizedPnls(exchange, positions[..i + 1], totalSupply, setQuantity))
         == Sum(RealizedPnls(exchange, positions[..i], totalSupply, setQuantity))
            + RealizedPnl(exchange, positions[i], totalSupply, setQuantity)
  {
    hide RealizedPnl;
    assert positions[..i + 1] == positions[..i] + [positions[i]];
    var pnls := RealizedPnls(exchange, positions[..i], totalSupply, setQuantity);
    var pnl := RealizedPnl(exchange, positions[i], totalSupply, setQuantity);
    assert RealizedPnls(exchange, positions[..i + 1], totalSupply, setQuantity) == pnls + [pnl];
    SumSnoc(pnls, pnl);
  }

  method CalculateUSDCTransferOutPreciseUnits(
      account: AccountInfo, positions: seq<PositionNotional>, exchange: Exchange,
      totalSupply: int, setQuantity: int, includeFunding: bool)
    returns (r: Result<int>)
    ensures r.Ok? <==> totalSupply != 0 && Open(positions)
    ensures r.Ok? ==>
      r.value == Abs(
        PreciseMul(PreciseDiv(CollateralBalance(account, includeFunding), totalSupply), setQuantity)
        + Sum(RealizedPnls(exchange, positions, totalSupply, setQuantity)))
    ensures r.Ok? ==>
      IsTransferOut(r.value, account, positions, exchange, totalSupply, setQuantity, includeFunding)
  {
    hide Div, PreciseDiv, PreciseMul, Sum, RealizedPnls, IsTransferOut;
    var totalRealizedPnl := 0;
    var totalCollateralBalance := account.collateralBalance + account.owedRealizedPnl;
    if includeFunding {
      totalCollateralBalance := totalCollateralBalance + account.pendingFundingPayments;
    }
    if totalSupply == 0 {
      return Err(DivisionByZero);
    }
    var collateralPositionUnit := PreciseDiv(totalCollateralBalance, totalSupply);
    var collateralQuantityNotional := PreciseMul(collateralPositionUnit, setQuantity);
    assert Sum(RealizedPnls(exchange, positions[..0], totalSupply, setQuantity)) == 0 by {
      NoPnl(exchange, positions[..0], totalSupply, setQuantity);
    }
    for i := 0 to |positions|
      invariant Open(positions[..i])
      invariant totalRealizedPnl == Sum(RealizedPnls(exchange, positions[..i], totalSupply, setQuantity))
    {
      var position := positions[i];
      var basePositionUnit := PreciseDiv(position.baseBalance, totalSupply);
      var baseTradeQuantityNotional := PreciseMul(basePositionUnit, setQuantity);
      var isLong := 0 <= basePositionUnit;
      if position.baseBalance == 0 {
        return Err(DivisionByZero);
      }
      var closeRatio := PreciseDiv(Abs(baseTradeQuantityNotional), Abs(position.baseBalance));
      var reducedOpenNotional := PreciseMul(position.quoteBalance, closeRatio);
      var deltaQuote := exchange.deltaQuote(position.baseToken, Abs(baseTradeQuantityNotional), !isLong);
      var realizedPnl := if isLong then reducedOpenNotional + deltaQuote else reducedOpenNotional - deltaQuote;
      totalRealizedPnl := totalRealizedPnl + realizedPnl;
      RealizedPnlsSnoc(exchange, positions, i, totalSupply, setQuantity);
    }
    assert positions[..|positions|] == positions;
    TransferOutMeans(account, positions, exchange, totalSupply, setQuantity, includeFunding);
    return Ok(Abs(collateralQuantityNotional + totalRealizedPnl));
  }

  /** The side of a position is read off its truncated unit, so a short is closed as if it were a
      long exactly when it is too small for one wei of unit. */
  lemma ShortCountsAsLongIff(position: PositionNotional, totalSupply: int)
    requires 0 < totalSupply && position.baseBalance < 0
    ensures 0 <= BasePositionUnit(position, totalSupply) <==> -position.baseBalance * PRECISE_UNIT < totalSupply
  {
  }

  // ----- Many redeemers of one account state -----

  function CloseRatios(position: PositionNotional, totalSupply: int, quantities: seq<int>): seq<int>
    requires totalSupply != 0 && position.baseBalance != 0
  {
    seq(|quantities|, i requires 0 <= i < |quantities| => CloseRatio(position, totalSupply, quantities[i]))
  }

  function NotionalMagnitudes(position: PositionNotional, totalSupply: int, quantities: seq<int>): seq<int>
    requires totalSupply != 0 && position.baseBalance != 0
  {
    seq(|quantities|, i requires 0 <= i < |quantities| =>
      Abs(ReducedOpenNotional(position, totalSupply, quantities[i])))
  }

  /** Each redeemer's ratio and notional are those of the quantity redeemed. */
  lemma RedeemersRealizeTheirPart(
      exchange: Exchange, position: PositionNotional, totalSupply: int, quantities: seq<int>, i: nat)
    requires totalSupply != 0 && position.baseBalance != 0 && i < |quantities|
    ensures |CloseRatios(position, totalSupply, quantities)| == |quantities|
    ensures |NotionalMagnitudes(position, totalSupply, quantities)| == |quantities|
    ensures exists unit, trade, notional ::
      && IsRealizedPnlBy(
           RealizedPnl(exchange, position, totalSupply, quantities[i]), exchange, position, totalSupply, quantities[i],
           unit, trade, CloseRatios(position, totalSupply, quantities)[i], notional)
      && NotionalMagnitudes(position, totalSupply, quantities)[i] == Abs(notional)
  {
    var quantity := quantities[i];
    var unit, trade := BasePositionUnit(position, totalSupply), BaseTradeOut(position, totalSupply, quantity);
    var ratio, notional := CloseRatio(position, totalSupply, quantity), ReducedOpenNotional(position, totalSupply, quantity);
    PnlIsRealizedBy(exchange, position, totalSupply, quantity);
    hide IsRealizedPnlBy, RealizedPnl, CloseRatio, ReducedOpenNotional;
    assert CloseRatios(position, totalSupply, quantities)[i] == ratio;
    assert NotionalMagnitudes(position, totalSupply, quantities)[i] == Abs(notional);
  }

  /** What one redeemer closes is the quantity's part of the unit, long or short, rounded down. */
  lemma CloseRatioBound(position: PositionNotional, totalSupply: int, setQuantity: nat)
    requires 0 < totalSupply && position.baseBalance != 0
    ensures var ratio, unit := CloseRatio(position, totalSupply, setQuantity), Abs(BasePositionUnit(position, totalSupply));
      && 0 <= ratio
      && ratio * Abs(position.baseBalance) <= unit * setQuantity
      && unit * setQuantity < (ratio + 1) * Abs(position.baseBalance) + PRECISE_UNIT
  {
    var unit := BasePositionUnit(position, totalSupply);
    PreciseMulTruncates(unit, setQuantity);
    DivideFloor(Abs(BaseTradeOut(position, totalSupply, setQuantity)), Abs(position.baseBalance));
    AbsProduct(unit, setQuantity);
  }

  /** Redeeming so much that the whole position is traded realizes its whole open notional, plus
      what selling the base of a long brings in or minus what buying back a short costs. */
  lemma FullCloseRealizesOpenNotional(exchange: Exchange, position: PositionNotional, totalSupply: int, setQuantity: nat)
    requires 0 < totalSupply && position.baseBalance != 0
    requires BaseTradeOut(position, totalSupply, setQuantity) == position.baseBalance
    ensures var amount := Abs(position.baseBalance);
      RealizedPnl(exchange, position, totalSupply, setQuantity)
      == if 0 < position.baseBalance
         then position.quoteBalance + exchange.deltaQuote(position.baseToken, amount, false)
         else position.quoteBalance - exchange.deltaQuote(position.baseToken, amount, true)
  {
    var amount, unit := Abs(position.baseBalance), BasePositionUnit(position, totalSupply);
    DivideFloor(amount, amount);
    CloseWhole(PreciseDiv(amount, amount), amount, PRECISE_UNIT);
    WholeNotional(position.quoteBalance);
    PreciseMulTruncates(unit, setQuantity);
    PreciseDivTruncates(position.baseBalance, totalSupply);
    assert unit != 0;
    assert 0 < unit <==> 0 < position.baseBalance;
  }

  lemma CloseWhole(ratio: int, amount: int, u: int)
    requires 0 < amount && ratio * amount <= amount * u < ratio * amount + amount
    ensures ratio == u
  {
    assert ratio * amount + amount == (ratio + 1) * amount;
    CancelLe(ratio, u, amount);
    CancelLt(u, ratio + 1, amount);
  }

  lemma WholeNotional(quote: int)
    ensures PreciseMul(quote, PRECISE_UNIT) == quote
  {
  }

  lemma {:induction false} CloseRatiosSum(position: PositionNotional, totalSupply: int, quantities: seq<int>)
    requires 0 < totalSupply && position.baseBalance != 0
    requires forall i :: 0 <= i < |quantities| ==> 0 <= quantities[i]
    ensures Sum(CloseRatios(position, totalSupply, quantities)) * Abs(position.baseBalance)
         <= Abs(BasePositionUnit(position, totalSupply)) * Sum(quantities)
    ensures 0 <= Sum(CloseRatios(position, totalSupply, quantities))
  {
    if quantities != [] {
      var n := |quantities| - 1;
      var ratios := CloseRatios(position, totalSupply, quantities);
      CloseRatiosSum(position, totalSupply, quantities[..n]);
      assert ratios[..n] == CloseRatios(position, totalSupply, quantities[..n]);
      CloseRatioBound(position, totalSupply, quantities[n]);
      AddProducts(
        Sum(ratios[..n]), ratios[n], Abs(position.baseBalance),
        Abs(BasePositionUnit(position, totalSupply)), Sum(quantities[..n]), quantities[n]);
    }
  }

  lemma AddProducts(a: int, b: int, k: int, m: int, x: int, y: int)
    requires a * k <= m * x && b * k <= m * y
    ensures (a + b) * k <= m * (x + y)
  {
  }

  lemma {:induction false} NotionalsSum(position: PositionNotional, totalSupply: int, quantities: seq<int>)
    requires 0 < totalSupply && position.baseBalance != 0
    requires forall i :: 0 <= i < |quantities| ==> 0 <= quantities[i]
    ensures Sum(NotionalMagnitudes(position, totalSupply, quantities)) * PRECISE_UNIT
         <= Abs(position.quoteBalance) * Sum(CloseRatios(position, totalSupply, quantities))
  {
    if quantities != [] {
      var n := |quantities| - 1;
      var notionals, ratios := NotionalMagnitudes(position, totalSupply, quantities), CloseRatios(position, totalSupply, quantities);
      NotionalsSum(position, totalSupply, quantities[..n]);
      assert ratios[..n] == CloseRatios(position, totalSupply, quantities[..n]);
      assert notionals[..n] == NotionalMagnitudes(position, totalSupply, quantities[..n]);
      CloseRatioBound(position, totalSupply, quantities[n]);
      PreciseMulTruncates(position.quoteBalance, ratios[n]);
      AbsProduct(position.quoteBalance, ratios[n]);
      AddProducts(
        Sum(notionals[..n]), notionals[n], PRECISE_UNIT, Abs(position.quoteBalance), Sum(ratios[..n]), ratios[n]);
    }
  }

  /** However the redeemed quantities are split, together they close at most the whole of each
      position and realize at most the whole of its open notional, long or short. */
  lemma RedeemersCloseAtMostThePosition(position: PositionNotional, totalSupply: int, quantities: seq<int>)
    requires 0 < totalSupply && position.baseBalance != 0
    requires forall j :: 0 <= j < |quantities| ==> 0 <= quantities[j]
    requires Sum(quantities) <= totalSupply
    ensures 0 <= Sum(CloseRatios(position, totalSupply, quantities)) <= PRECISE_UNIT
    ensures Sum(NotionalMagnitudes(position, totalSupply, quantities)) <= Abs(position.quoteBalance)
  {
    var ratios := Sum(CloseRatios(position, totalSupply, quantities));
    CloseRatiosSum(position, totalSupply, quantities);
    PreciseDivTruncates(position.baseBalance, totalSupply);
    RatioAtMostOne(
      ratios, Abs(BasePositionUnit(position, totalSupply)), Abs(position.baseBalance),
      Sum(quantities), totalSupply, PRECISE_UNIT);
    NotionalsSum(position, totalSupply, quantities);
    MulLe(ratios, PRECISE_UNIT, Abs(position.quoteBalance));
    CancelLe(
      Sum(NotionalMagnitudes(position, totalSupply, quantities)), Abs(position.quoteBalance), PRECISE_UNIT);
  }

  lemma RatioAtMostOne(ratios: int, unit: nat, base: int, redeemed: int, supply: int, u: int)
    requires 0 < base && redeemed <= supply
    requires ratios * base <= unit * redeemed && unit * supply <= base * u
    ensures ratios <= u
  {
  }
}
