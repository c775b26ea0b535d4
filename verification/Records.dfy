/** The records as the code fills them: fields of an expected record assigned one after another, some
    more than once. Each method ends in the state its specification gives as a value. */
module Records {
  import opened WadRayMath
  import opened Interest
  import opened Rates
  import opened StableRate
  import opened Accrual
  import Transitions
  import Users

  type RateMode = Transitions.RateMode

  /** Both ratios against two kinds of liquidity; the assertion the code makes of them cannot fail unless
      the debts are negative together. */
  method CalcExpectedUsageRatios(totalStableDebt: int, totalVariableDebt: int, availableLiquidity: int, totalLiquidity: int)
    returns (borrowUsageRatio: int, supplyUsageRatio: int)
    requires RatiosPass(totalStableDebt + totalVariableDebt, availableLiquidity, totalLiquidity)
    ensures borrowUsageRatio == UsageRatio(totalStableDebt + totalVariableDebt, availableLiquidity)
    ensures supplyUsageRatio == UsageRatio(totalStableDebt + totalVariableDebt, totalLiquidity)
    ensures supplyUsageRatio <= borrowUsageRatio
    ensures 0 <= totalStableDebt + totalVariableDebt ==> 0 <= supplyUsageRatio && borrowUsageRatio <= RAY
  {
    var totalDebt := totalStableDebt + totalVariableDebt;
    borrowUsageRatio := if totalDebt == 0 then 0 else RayDiv(totalDebt, availableLiquidity + totalDebt);
    supplyUsageRatio := if totalDebt == 0 then 0 else RayDiv(totalDebt, totalLiquidity + totalDebt);
    hide RayDiv;
    if totalDebt >= 0 {
      UsageFallsWithLiquidity(totalDebt, availableLiquidity, totalLiquidity);
    }
    assert supplyUsageRatio <= borrowUsageRatio;
  }

  /** The rates, accumulated term by term from their base values. */
  method CalcExpectedInterestRates(config: Configuration, marketStableRate: int, totalStableDebt: int, totalVariableDebt: int,
                                   averageStableBorrowRate: int, availableLiquidity: int, totalLiquidity: int)
    returns (rates: InterestRates)
    requires config.Valid()
    requires Computable(config.strategy, totalStableDebt, totalVariableDebt, availableLiquidity, totalLiquidity)
    ensures rates == ExpectedInterestRates(config, marketStableRate, totalStableDebt, totalVariableDebt,
                                           averageStableBorrowRate, availableLiquidity, totalLiquidity)
  {
    hide RayMul, RayDiv, PercentMul, UsageRatio;
    var s := config.strategy;
    var borrowUsageRatio, supplyUsageRatio :=
      CalcExpectedUsageRatios(totalStableDebt, totalVariableDebt, availableLiquidity, totalLiquidity);
    var stableBorrowRate := marketStableRate;
    var variableBorrowRate := s.baseVariableBorrowRate;
    var totalDebt := totalStableDebt + totalVariableDebt;
    var stableToTotalDebtRatio := if totalStableDebt > 0 then RayDiv(totalStableDebt, totalDebt) else 0;
    assert stableToTotalDebtRatio == StableDebtShare(totalStableDebt, totalVariableDebt);
    if borrowUsageRatio > s.optimalUsageRatio {
      var excess := RayDiv(borrowUsageRatio - s.optimalUsageRatio, RAY - s.optimalUsageRatio);
      stableBorrowRate := stableBorrowRate + s.stableRateSlope1 + RayMul(s.stableRateSlope2, excess);
      variableBorrowRate := variableBorrowRate + s.variableRateSlope1 + RayMul(s.variableRateSlope2, excess);
    } else {
      stableBorrowRate := stableBorrowRate + RayDiv(RayMul(s.stableRateSlope1, borrowUsageRatio), s.optimalUsageRatio);
      variableBorrowRate := variableBorrowRate + RayDiv(RayMul(s.variableRateSlope1, borrowUsageRatio), s.optimalUsageRatio);
    }
    if stableToTotalDebtRatio > s.optimalStableToTotalDebtRatio {
      var excess := RayDiv(stableToTotalDebtRatio - s.optimalStableToTotalDebtRatio, RAY - s.optimalStableToTotalDebtRatio);
      stableBorrowRate := stableBorrowRate + RayMul(s.stableRateExcessOffset, excess);
    }
    var overall := OverallBorrowRate(totalStableDebt, totalVariableDebt, variableBorrowRate, averageStableBorrowRate);
    var liquidityRate := PercentMul(RayMul(overall, supplyUsageRatio), PERCENTAGE_FACTOR - config.reserveFactor);
    rates := InterestRates(liquidityRate, stableBorrowRate, variableBorrowRate);
  }

  lemma BorrowRateNonnegative(config: Configuration, marketStableRate: int, ts: int, tv: int, average: int, available: int, total: int)
    requires config.Valid() && Amounts(ts, tv, available, total)
    ensures ExpectedInterestRates(config, marketStableRate, ts, tv, average, available, total).variableBorrowRate >= 0
  {
    hide UsageRatio, Curve, LiquidityRate, OverallBorrowRate, StableBorrowRate;
    VariableRateNonnegative(config.strategy, UsageRatio(ts + tv, available));
  }

  class ReserveData {
    var reserveFactor: int
    var availableLiquidity: int
    var totalLiquidity: int
    var unbacked: int
    var totalStableDebt: int
    var totalVariableDebt: int
    var principalStableDebt: int
    var scaledVariableDebt: int
    var averageStableBorrowRate: int
    var variableBorrowRate: int
    var stableBorrowRate: int
    var liquidityRate: int
    var supplyUsageRatio: int
    var borrowUsageRatio: int
    var liquidityIndex: int
    var variableBorrowIndex: int
    var accruedToTreasuryScaled: int
    var marketStableRate: int
    var lastUpdateTimestamp: int
    var totalStableDebtLastUpdated: int

    function Value(): Reserve
      reads this
    {
      Reserve(reserveFactor, availableLiquidity, totalLiquidity, unbacked, totalStableDebt, totalVariableDebt,
              principalStableDebt, scaledVariableDebt, averageStableBorrowRate, variableBorrowRate, stableBorrowRate,
              liquidityRate, supplyUsageRatio, borrowUsageRatio, liquidityIndex, variableBorrowIndex,
              accruedToTreasuryScaled, marketStableRate, lastUpdateTimestamp, totalStableDebtLastUpdated)
    }

    /** Agreement on every field that expected and actual records are compared on; the market rate and
        the two timestamps are accessory. */
    predicate Shows(v: Reserve)
      reads this
    {
      Value() == v.(marketStableRate := marketStableRate,
                    lastUpdateTimestamp := lastUpdateTimestamp,
                    totalStableDebtLastUpdated := totalStableDebtLastUpdated)
    }

    /** Writes the accrued indexes, debts and treasury share of another record into this one. */
    method UpdateState(before: ReserveData, txTimestamp: int)
      requires this != before && LiquidityIndexAt(before.Value(), txTimestamp) != 0
      modifies this
      ensures var s := Accrual.UpdateState(before.Value(), txTimestamp);
              Value() == old(Value()).(liquidityIndex := s.liquidityIndex,
                                       variableBorrowIndex := s.variableBorrowIndex,
                                       totalStableDebt := s.totalStableDebt,
                                       totalVariableDebt := s.totalVariableDebt,
                                       scaledVariableDebt := s.scaledVariableDebt,
                                       principalStableDebt := s.principalStableDebt,
                                       accruedToTreasuryScaled := s.accruedToTreasuryScaled)
    {
      hide RayMul, RayDiv, PercentMul, CompoundedInterest, LinearInterest;
      var r := before.Value();
      liquidityIndex := LiquidityIndexAt(before.Value(), txTimestamp);
      variableBorrowIndex := VariableBorrowIndexAt(before.Value(), txTimestamp);
      totalStableDebt := TotalStableDebtAt(r.principalStableDebt, r.averageStableBorrowRate,
                                           r.totalStableDebtLastUpdated, txTimestamp);
      totalVariableDebt := RayMul(r.scaledVariableDebt, variableBorrowIndex);
      scaledVariableDebt := r.scaledVariableDebt;
      principalStableDebt := r.principalStableDebt;
      assert before.Value() == r;
      assert AccrueToTreasury(r, Value()) == AccrueToTreasury(r, WithInterest(r, txTimestamp));
      accruedToTreasuryScaled := AccrueToTreasury(before.Value(), Value());
    }

    method UpdateLiquidityAndUsageRatios(before: ReserveData, liquidityAdded: int, liquidityTaken: int)
      requires this != before && Transitions.NonnegativeDebts(Value()) && 0 <= unbacked
      requires 0 <= before.availableLiquidity + liquidityAdded - liquidityTaken
      modifies this
      ensures var available := before.availableLiquidity + liquidityAdded - liquidityTaken;
              Value() == Transitions.WithUsage(old(Value()), available, available + old(unbacked))
    {
      hide UsageRatio;
      availableLiquidity := before.availableLiquidity + liquidityAdded - liquidityTaken;
      totalLiquidity := availableLiquidity + unbacked;
      borrowUsageRatio, supplyUsageRatio :=
        CalcExpectedUsageRatios(totalStableDebt, totalVariableDebt, availableLiquidity, totalLiquidity);
    }

    method UpdateTotalLiquidityAndUsageRatio()
      requires RatiosPass(Value().TotalDebt(), availableLiquidity, availableLiquidity + unbacked)
      modifies this
      ensures Value() == Transitions.UpdateTotalLiquidityAndUsageRatio(old(Value()))
    {
      hide UsageRatio;
      totalLiquidity := availableLiquidity + unbacked;
      borrowUsageRatio, supplyUsageRatio :=
        CalcExpectedUsageRatios(totalStableDebt, totalVariableDebt, availableLiquidity, totalLiquidity);
    }

    /** Everything but rates, ratios and accessory fields. */
    predicate HasCore(core: Reserve)
      reads this
    {
      && reserveFactor == core.reserveFactor
      && availableLiquidity == core.availableLiquidity && totalLiquidity == core.totalLiquidity && unbacked == core.unbacked
      && totalStableDebt == core.totalStableDebt && totalVariableDebt == core.totalVariableDebt
      && principalStableDebt == core.principalStableDebt && scaledVariableDebt == core.scaledVariableDebt
      && averageStableBorrowRate == core.averageStableBorrowRate
      && liquidityIndex == core.liquidityIndex && variableBorrowIndex == core.variableBorrowIndex
      && accruedToTreasuryScaled == core.accruedToTreasuryScaled
    }

    /** New rates from this record's debts and liquidity, and the market rate of the record before. */
    method AssignRates(config: Configuration, before: ReserveData)
      requires this != before && config.Valid()
      requires Computable(config.strategy, totalStableDebt, totalVariableDebt, availableLiquidity, totalLiquidity)
      modifies this
      ensures Value() == Transitions.WithRates(old(Value()),
                ExpectedInterestRates(config, before.marketStableRate, old(totalStableDebt), old(totalVariableDebt),
                                      old(averageStableBorrowRate), old(availableLiquidity), old(totalLiquidity)))
    {
      hide ExpectedInterestRates;
      var rates := CalcExpectedInterestRates(config, before.marketStableRate, totalStableDebt, totalVariableDebt,
                                             averageStableBorrowRate, availableLiquidity, totalLiquidity);
      liquidityRate := rates.liquidityRate;
      stableBorrowRate := rates.stableBorrowRate;
      variableBorrowRate := rates.variableBorrowRate;
    }

    /** The end of most transitions. */
    method SettleRates(config: Configuration, before: ReserveData, ghost core: Reserve)
      requires this != before && config.Valid() && Transitions.Settleable(config, core)
      requires HasCore(core) && core.marketStableRate == before.marketStableRate
      modifies this
      ensures Shows(Transitions.Settle(config, core))
      ensures lastUpdateTimestamp == old(lastUpdateTimestamp)
    {
      hide UsageRatio, ExpectedInterestRates;
      AssignRates(config, before);
      UpdateTotalLiquidityAndUsageRatio();
    }

    /** The end of repaying and swapping: the ratios of the new debts, then as in most transitions. */
    method Reassess(config: Configuration, before: ReserveData, ghost core: Reserve)
      requires this != before && config.Valid() && Transitions.Settleable(config, core)
      requires HasCore(core) && core.marketStableRate == before.marketStableRate
      modifies this
      ensures Shows(Transitions.Settle(config, core))
      ensures lastUpdateTimestamp == old(lastUpdateTimestamp)
    {
      hide UsageRatio, ExpectedInterestRates, Transitions.Settle;
      borrowUsageRatio, supplyUsageRatio :=
        CalcExpectedUsageRatios(totalStableDebt, totalVariableDebt, availableLiquidity, totalLiquidity);
      SettleRates(config, before, core);
    }

    /** Starts an expected record: what is copied, what has accrued, and the liquidity after cash moved. */
    method Start(before: ReserveData, added: int, taken: int, txTimestamp: int)
      requires this != before && before.Value().Valid() && before.lastUpdateTimestamp <= txTimestamp
      requires 0 <= before.availableLiquidity + added - taken
      modifies this
      ensures HasCore(Transitions.UpdateLiquidityAndUsageRatios(Transitions.Accrued(before.Value(), txTimestamp), added, taken)
                      .(averageStableBorrowRate := averageStableBorrowRate))
    {
      hide RayMul, UsageRatio, Accrual.UpdateState;
      Transitions.AccrualFrame(before.Value(), txTimestamp);
      unbacked := before.unbacked;
      reserveFactor := before.reserveFactor;
      UpdateState(before, txTimestamp);
      UpdateLiquidityAndUsageRatios(before, added, taken);
    }

    /** Raises the index by the suppliers' part of a fee and credits the treasury its own part. */
    method AddFee(scaledRSTokenSupply: int, fee: int, bridgeProtocolFee: int, ghost s: Reserve)
      requires s.Sound() && 0 <= scaledRSTokenSupply && 0 <= fee && 0 <= bridgeProtocolFee <= PERCENTAGE_FACTOR
      requires 0 < Transitions.Claims(scaledRSTokenSupply, s.accruedToTreasuryScaled, s.liquidityIndex)
      requires liquidityIndex == s.liquidityIndex && accruedToTreasuryScaled == s.accruedToTreasuryScaled
      modifies this
      ensures var paid := Transitions.PayFee(s, scaledRSTokenSupply, fee, bridgeProtocolFee);
              Value() == old(Value()).(liquidityIndex := paid.liquidityIndex,
                                       accruedToTreasuryScaled := paid.accruedToTreasuryScaled)
    {
      hide RayMul, RayDiv, PercentMul, Transitions.CumulateToLiquidityIndex;
      var premiumToProtocol := PercentMul(fee, bridgeProtocolFee);
      var premiumToLP := fee - premiumToProtocol;
      PercentMulBounds(fee, bridgeProtocolFee);
      var totalSupply := RayMul(scaledRSTokenSupply, liquidityIndex);
      liquidityIndex := Transitions.CumulateToLiquidityIndex(
        liquidityIndex, totalSupply + RayMul(accruedToTreasuryScaled, liquidityIndex), premiumToLP);
      accruedToTreasuryScaled := accruedToTreasuryScaled + RayDiv(premiumToProtocol, liquidityIndex);
    }

    /** Starts an expected record as Start does, paying the fee of a backing on the way. */
    method StartBacked(before: ReserveData, scaledRSTokenSupply: int, fee: int, bridgeProtocolFee: int, backingAmount: int,
                       txTimestamp: int)
      requires this != before && before.Value().Valid() && before.lastUpdateTimestamp <= txTimestamp
      requires Transitions.BackingDefined(before.Value(), scaledRSTokenSupply, 0, fee, bridgeProtocolFee, txTimestamp)
      requires 0 <= backingAmount <= before.unbacked
      modifies this
      ensures var s := Transitions.Accrued(before.Value(), txTimestamp);
              var paid := Transitions.PayFee(s, scaledRSTokenSupply, fee, bridgeProtocolFee)
                          .(unbacked := before.unbacked - backingAmount);
              HasCore(Transitions.UpdateLiquidityAndUsageRatios(paid, backingAmount + fee, 0)
                      .(averageStableBorrowRate := averageStableBorrowRate))
    {
      hide RayMul, RayDiv, PercentMul, UsageRatio, Accrual.UpdateState, Transitions.Claims, Transitions.CumulateToLiquidityIndex;
      Transitions.AccrualFrame(before.Value(), txTimestamp);
      ghost var s := Transitions.Accrued(before.Value(), txTimestamp);
      reserveFactor := before.reserveFactor;
      UpdateState(before, txTimestamp);
      hide Transitions.Accrued;
      AddFee(scaledRSTokenSupply, fee, bridgeProtocolFee, s);
      unbacked := before.unbacked - backingAmount;
      UpdateLiquidityAndUsageRatios(before, backingAmount + fee, 0);
    }

    /** Takes a repayment off this record's debt of one kind. */
    method RepayDebt(before: ReserveData, user: User, amount: int, mode: RateMode, expectedDebt: int)
      requires this != before && variableBorrowIndex > 0
      requires scaledVariableDebt == before.scaledVariableDebt && totalStableDebt == expectedDebt
      modifies this
      ensures Value() == Transitions.RepaidCore(
                old(Value()).(averageStableBorrowRate := before.averageStableBorrowRate), user, amount, mode)
    {
      hide RayMul, RayDiv, AverageStableRate;
      var r := before.Value();
      if mode.Stable? {
        totalStableDebt := expectedDebt - amount;
        principalStableDebt := totalStableDebt;
        if totalStableDebt < 0 {
          averageStableBorrowRate := 0;
          totalStableDebt := averageStableBorrowRate;
          principalStableDebt := totalStableDebt;
        } else {
          averageStableBorrowRate :=
            AverageStableRate(r.averageStableBorrowRate, expectedDebt, Negated(amount), user.stableBorrowRate);
          if averageStableBorrowRate < 0 {
            averageStableBorrowRate := 0;
            totalStableDebt := averageStableBorrowRate;
            principalStableDebt := totalStableDebt;
          }
        }
      } else {
        scaledVariableDebt := r.scaledVariableDebt - RayDiv(amount, variableBorrowIndex);
        totalVariableDebt := RayMul(scaledVariableDebt, variableBorrowIndex);
        averageStableBorrowRate := r.averageStableBorrowRate;
      }
    }

    /** Moves a user's stable debt into variable debt. */
    method SwapToVariable(before: ReserveData, user: User, stableDebt: int, txTimestamp: int)
      requires this != before && variableBorrowIndex > 0
      requires scaledVariableDebt == before.scaledVariableDebt
      requires stableDebt == UserStableDebt(user, txTimestamp)
      modifies this
      ensures Value() == Transitions.SwappedCore(before.Value(), old(Value()), user, RateMode.Stable, txTimestamp)
    {
      hide RayMul, RayDiv, AverageStableRate, UserStableDebt, VariableDebtBalance;
      var r := before.Value();
      var totalStableDebtUntilTx := totalStableDebt;
      scaledVariableDebt := r.scaledVariableDebt + RayDiv(stableDebt, variableBorrowIndex);
      totalVariableDebt := RayMul(scaledVariableDebt, variableBorrowIndex);
      totalStableDebt := totalStableDebtUntilTx - stableDebt;
      principalStableDebt := totalStableDebt;
      averageStableBorrowRate := AverageStableRate(r.averageStableBorrowRate, principalStableDebt + stableDebt,
                                                   Negated(stableDebt), user.stableBorrowRate);
    }

    /** Moves a user's variable debt into stable debt. */
    method SwapToStable(before: ReserveData, user: User, variableDebt: int, txTimestamp: int)
      requires this != before && variableBorrowIndex > 0
      requires scaledVariableDebt == before.scaledVariableDebt
      requires variableDebt == VariableDebtBalance(before.Value(), user, txTimestamp)
      modifies this
      ensures Value() == Transitions.SwappedCore(before.Value(), old(Value()), user, RateMode.Variable, txTimestamp)
    {
      hide RayMul, RayDiv, AverageStableRate, UserStableDebt, VariableDebtBalance;
      var r := before.Value();
      var totalStableDebtUntilTx := totalStableDebt;
      totalStableDebt := totalStableDebtUntilTx + variableDebt;
      principalStableDebt := totalStableDebt;
      scaledVariableDebt := r.scaledVariableDebt - RayDiv(variableDebt, variableBorrowIndex);
      totalVariableDebt := RayMul(scaledVariableDebt, variableBorrowIndex);
      averageStableBorrowRate := AverageStableRate(r.averageStableBorrowRate, r.totalStableDebt,
                                                   variableDebt, r.stableBorrowRate);
    }

    /** The rates of a borrow, and its debts and ratios as they are seen later. */
    method SeeDebtsLater(rates: InterestRates, principal: int, average: int, stableSince: int, scaled: int,
                         txTimestamp: int, currentTimestamp: int)
      requires principal >= 0 && average >= 0 && scaled >= 0 && variableBorrowIndex >= 0 && rates.variableBorrowRate >= 0
      requires stableSince <= currentTimestamp && txTimestamp <= currentTimestamp
      requires 0 <= availableLiquidity <= totalLiquidity
      modifies this
      ensures TotalStableDebtAt(principal, average, stableSince, currentTimestamp) >= 0
      ensures RayMul(scaled, ReserveNormalizedDebt(rates.variableBorrowRate, old(variableBorrowIndex), txTimestamp, currentTimestamp)) >= 0
      ensures Value() == Transitions.WithUsage(
                Transitions.WithRates(old(Value()), rates).(
                  totalStableDebt := TotalStableDebtAt(principal, average, stableSince, currentTimestamp),
                  totalVariableDebt := RayMul(scaled, ReserveNormalizedDebt(rates.variableBorrowRate, old(variableBorrowIndex),
                                                                            txTimestamp, currentTimestamp))),
                old(availableLiquidity), old(totalLiquidity))
    {
      hide RayMul, UsageRatio, TotalStableDebtAt, ReserveNormalizedDebt;
      Transitions.StableDebtNonnegative(principal, average, stableSince, currentTimestamp);
      Transitions.NormalizedDebtNonnegative(scaled, rates.variableBorrowRate, variableBorrowIndex, txTimestamp, currentTimestamp);
      liquidityRate := rates.liquidityRate;
      stableBorrowRate := rates.stableBorrowRate;
      variableBorrowRate := rates.variableBorrowRate;
      totalStableDebt := TotalStableDebtAt(principal, average, stableSince, currentTimestamp);
      totalVariableDebt := RayMul(scaled, ReserveNormalizedDebt(variableBorrowRate, variableBorrowIndex, txTimestamp, currentTimestamp));
      borrowUsageRatio, supplyUsageRatio :=
        CalcExpectedUsageRatios(totalStableDebt, totalVariableDebt, availableLiquidity, totalLiquidity);
    }

    /** Adds stable debt to this accrued record. */
    method BorrowStable(config: Configuration, before: ReserveData, amount: int, txTimestamp: int, currentTimestamp: int,
                        ghost s: Reserve)
      requires this != before && Transitions.Ready(config, before.Value(), txTimestamp) && txTimestamp <= currentTimestamp
      requires amount >= 0 && Transitions.Balanced(s) && s.Sound()
      requires HasCore(s.(averageStableBorrowRate := averageStableBorrowRate))
      modifies this
      ensures Shows(Transitions.StableBorrow(config, before.Value(), s, amount, txTimestamp, currentTimestamp))
      ensures lastUpdateTimestamp == old(lastUpdateTimestamp)
    {
      hide RayMul, RayDiv, UsageRatio, ExpectedInterestRates, AverageStableRate, TotalStableDebtAt, ReserveNormalizedDebt;
      var r := before.Value();
      var untilTx := TotalStableDebtAt(r.principalStableDebt, r.averageStableBorrowRate, r.totalStableDebtLastUpdated, txTimestamp);
      Transitions.StableDebtNonnegative(r.principalStableDebt, r.averageStableBorrowRate, r.totalStableDebtLastUpdated, txTimestamp);
      AverageNonnegative(r.averageStableBorrowRate, untilTx, amount, r.stableBorrowRate);
      var average := AverageStableRate(r.averageStableBorrowRate, untilTx, amount, r.stableBorrowRate);
      var principal := untilTx + amount;
      averageStableBorrowRate := average;
      principalStableDebt := principal;
      BorrowRateNonnegative(config, r.marketStableRate, principal, totalVariableDebt, average, availableLiquidity, totalLiquidity);
      var rates := CalcExpectedInterestRates(config, r.marketStableRate, principal, totalVariableDebt, average,
                                             availableLiquidity, totalLiquidity);
      SeeDebtsLater(rates, principal, average, txTimestamp, r.scaledVariableDebt, txTimestamp, currentTimestamp);
    }

    /** Adds variable debt to this accrued record. */
    method BorrowVariable(config: Configuration, before: ReserveData, amount: int, txTimestamp: int, currentTimestamp: int,
                          ghost s: Reserve)
      requires this != before && Transitions.Ready(config, before.Value(), txTimestamp) && txTimestamp <= currentTimestamp
      requires amount >= 0 && Transitions.Balanced(s) && s.Sound()
      requires HasCore(s.(averageStableBorrowRate := averageStableBorrowRate))
      modifies this
      ensures Shows(Transitions.VariableBorrow(config, before.Value(), s, amount, txTimestamp, currentTimestamp))
      ensures lastUpdateTimestamp == old(lastUpdateTimestamp)
    {
      hide RayMul, RayDiv, UsageRatio, ExpectedInterestRates, TotalStableDebtAt, StableDebtBalance, ReserveNormalizedDebt;
      var r := before.Value();
      var stableAfterTx := StableDebtBalance(r.principalStableDebt, r.averageStableBorrowRate, r.totalStableDebtLastUpdated, txTimestamp);
      var scaled := r.scaledVariableDebt + RayDiv(amount, variableBorrowIndex);
      var variableAfterTx := RayMul(scaled, variableBorrowIndex);
      RayDivBounds(amount, variableBorrowIndex);
      RayMulBounds(scaled, variableBorrowIndex);
      Transitions.StableDebtNonnegative(r.principalStableDebt, r.averageStableBorrowRate, r.totalStableDebtLastUpdated, txTimestamp);
      principalStableDebt := r.principalStableDebt;
      averageStableBorrowRate := r.averageStableBorrowRate;
      scaledVariableDebt := scaled;
      BorrowRateNonnegative(config, r.marketStableRate, stableAfterTx, variableAfterTx, r.averageStableBorrowRate,
                            availableLiquidity, totalLiquidity);
      var rates := CalcExpectedInterestRates(config, r.marketStableRate, stableAfterTx, variableAfterTx,
                                             r.averageStableBorrowRate, availableLiquidity, totalLiquidity);
      SeeDebtsLater(rates, r.principalStableDebt, r.averageStableBorrowRate, r.totalStableDebtLastUpdated, scaled,
                    txTimestamp, currentTimestamp);
    }
  }

  method ReserveDataAfterDeposit(config: Configuration, amountDeposited: int, before: ReserveData, txTimestamp: int)
    returns (expected: ReserveData)
    requires Transitions.Ready(config, before.Value(), txTimestamp) && amountDeposited >= 0
    ensures fresh(expected)
    ensures expected.Shows(Transitions.AfterDeposit(config, before.Value(), amountDeposited, txTimestamp))
  {
    hide RayMul, UsageRatio, Transitions.Settle, Accrual.UpdateState;
    Transitions.AccrualFrame(before.Value(), txTimestamp);
    ghost var core := Transitions.UpdateLiquidityAndUsageRatios(
      Transitions.Accrued(before.Value(), txTimestamp), amountDeposited, 0);
    expected := new ReserveData;
    expected.Start(before, amountDeposited, 0, txTimestamp);
    expected.averageStableBorrowRate := before.averageStableBorrowRate;
    expected.SettleRates(config, before, core);
  }

  method ReserveDataAfterWithdraw(config: Configuration, amountWithdrawn: int, before: ReserveData, user: User, txTimestamp: int)
    returns (expected: ReserveData)
    requires Transitions.Ready(config, before.Value(), txTimestamp)
    requires 0 <= Transitions.WithdrawnAmount(before.Value(), user, amountWithdrawn, txTimestamp) <= before.availableLiquidity
    ensures fresh(expected)
    ensures expected.Shows(Transitions.AfterWithdraw(config, before.Value(), user, amountWithdrawn, txTimestamp))
  {
    hide RayMul, UsageRatio, Transitions.Settle, Accrual.UpdateState, RSTokenBalance;
    Transitions.AccrualFrame(before.Value(), txTimestamp);
    expected := new ReserveData;
    var amount := amountWithdrawn;
    if amount == Transitions.MAX_UINT_AMOUNT {
      amount := RSTokenBalance(before.Value(), user, txTimestamp);
    }
    ghost var core := Transitions.UpdateLiquidityAndUsageRatios(Transitions.Accrued(before.Value(), txTimestamp), 0, amount);
    expected.Start(before, 0, amount, txTimestamp);
    expected.averageStableBorrowRate := before.averageStableBorrowRate;
    expected.SettleRates(config, before, core);
  }

  method ReserveDataAfterMintUnbacked(config: Configuration, amountMinted: int, before: ReserveData, txTimestamp: int)
    returns (expected: ReserveData)
    requires Transitions.Ready(config, before.Value(), txTimestamp) && amountMinted >= 0
    ensures fresh(expected)
    ensures expected.Shows(Transitions.AfterMintUnbacked(config, before.Value(), amountMinted, txTimestamp))
  {
    hide RayMul, UsageRatio, Transitions.Settle, Accrual.UpdateState, AverageStableRate;
    Transitions.AccrualFrame(before.Value(), txTimestamp);
    ghost var s := Transitions.Accrued(before.Value(), txTimestamp).(unbacked := before.unbacked + amountMinted);
    ghost var core := Transitions.UpdateLiquidityAndUsageRatios(s, 0, 0).(averageStableBorrowRate :=
      AverageStableRate(before.averageStableBorrowRate, before.totalStableDebt, 0, before.stableBorrowRate));
    expected := new ReserveData;
    expected.reserveFactor := before.reserveFactor;
    expected.UpdateState(before, txTimestamp);
    expected.unbacked := before.unbacked + amountMinted;
    expected.UpdateLiquidityAndUsageRatios(before, 0, 0);
    expected.averageStableBorrowRate :=
      AverageStableRate(before.averageStableBorrowRate, before.totalStableDebt, 0, before.stableBorrowRate);
    expected.SettleRates(config, before, core);
  }

  method ReserveDataAfterBackUnbacked(config: Configuration, scaledRSTokenSupply: int, amount: int, fee: int,
                                      bridgeProtocolFee: int, before: ReserveData, txTimestamp: int)
    returns (expected: ReserveData)
    requires Transitions.Ready(config, before.Value(), txTimestamp)
    requires Transitions.BackingDefined(before.Value(), scaledRSTokenSupply, amount, fee, bridgeProtocolFee, txTimestamp)
    ensures fresh(expected)
    ensures expected.Shows(Transitions.AfterBackUnbacked(config, before.Value(), scaledRSTokenSupply, amount, fee,
                                                         bridgeProtocolFee, txTimestamp))
  {
    hide RayMul, RayDiv, PercentMul, UsageRatio, Transitions.Settle, AverageStableRate, Transitions.Accrued, Transitions.Claims,
      Transitions.CumulateToLiquidityIndex;
    Transitions.AccrualFrame(before.Value(), txTimestamp);
    var backingAmount := if amount < before.unbacked then amount else before.unbacked;
    ghost var s := Transitions.Accrued(before.Value(), txTimestamp);
    ghost var paid := Transitions.PayFee(s, scaledRSTokenSupply, fee, bridgeProtocolFee).(unbacked := before.unbacked - backingAmount);
    ghost var core := Transitions.UpdateLiquidityAndUsageRatios(paid, backingAmount + fee, 0).(averageStableBorrowRate :=
      AverageStableRate(before.averageStableBorrowRate, before.totalStableDebt, 0, before.stableBorrowRate));
    expected := new ReserveData;
    expected.StartBacked(before, scaledRSTokenSupply, fee, bridgeProtocolFee, backingAmount, txTimestamp);
    expected.averageStableBorrowRate :=
      AverageStableRate(before.averageStableBorrowRate, before.totalStableDebt, 0, before.stableBorrowRate);
    expected.SettleRates(config, before, core);
  }

  method ReserveDataAfterRepay(config: Configuration, amountRepaid: int, borrowRateMode: RateMode, before: ReserveData,
                               user: User, txTimestamp: int)
    returns (expected: ReserveData)
    requires Transitions.Ready(config, before.Value(), txTimestamp)
    requires Transitions.RepayDefined(before.Value(), user, amountRepaid, borrowRateMode, txTimestamp)
    ensures fresh(expected)
    ensures expected.Shows(Transitions.AfterRepay(config, before.Value(), user, amountRepaid, borrowRateMode, txTimestamp))
    ensures expected.lastUpdateTimestamp == txTimestamp
  {
    hide RayMul, RayDiv, UsageRatio, Transitions.Settle, Accrual.UpdateState, UserStableDebt, VariableDebtBalance,
      TotalStableDebtAt, Transitions.RepayStable, Transitions.Accrued, Transitions.RepaidAmount;
    var r := before.Value();
    Transitions.AccrualFrame(r, txTimestamp);
    expected := new ReserveData;
    var amount := Transitions.RepaidAmount(r, user, amountRepaid, borrowRateMode, txTimestamp);
    ghost var s := Transitions.UpdateLiquidityAndUsageRatios(Transitions.Accrued(r, txTimestamp), amount, 0);
    ghost var core := Transitions.RepaidCore(s, user, amount, borrowRateMode);
    Transitions.RepaidCoreBalanced(s, user, amount, borrowRateMode);
    expected.Start(before, amount, 0, txTimestamp);
    var expectedDebt := TotalStableDebtAt(r.principalStableDebt, r.averageStableBorrowRate,
                                          r.totalStableDebtLastUpdated, txTimestamp);
    expected.RepayDebt(before, user, amount, borrowRateMode, expectedDebt);
    expected.lastUpdateTimestamp := txTimestamp;
    expected.Reassess(config, before, core.(lastUpdateTimestamp := txTimestamp));
  }

  method ReserveDataAfterSwapRateMode(config: Configuration, before: ReserveData, user: User, rateMode: RateMode, txTimestamp: int)
    returns (expected: ReserveData)
    requires Transitions.Ready(config, before.Value(), txTimestamp)
    requires Transitions.SwapDefined(config, before.Value(), user, rateMode, txTimestamp)
    ensures fresh(expected)
    ensures expected.Shows(Transitions.AfterSwapRateMode(config, before.Value(), user, rateMode, txTimestamp))
  {
    hide RayMul, RayDiv, UsageRatio, Transitions.Settle, Accrual.UpdateState, AverageStableRate, UserStableDebt,
      VariableDebtBalance, Transitions.Accrued;
    var r := before.Value();
    Transitions.AccrualFrame(r, txTimestamp);
    Transitions.SwappedCoreSettleable(config, r, user, rateMode, txTimestamp);
    ghost var s := Transitions.UpdateLiquidityAndUsageRatios(Transitions.Accrued(r, txTimestamp), 0, 0);
    ghost var core := Transitions.SwappedCore(r, s, user, rateMode, txTimestamp);
    expected := new ReserveData;
    expected.Start(before, 0, 0, txTimestamp);
    var variableDebt := VariableDebtBalance(r, user, txTimestamp);
    var stableDebt := UserStableDebt(user, txTimestamp);
    if rateMode.Stable? {
      expected.SwapToVariable(before, user, stableDebt, txTimestamp);
    } else {
      expected.SwapToStable(before, user, variableDebt, txTimestamp);
    }
    expected.Reassess(config, before, core);
  }

  /** A borrow as the code computes it: debts, rates, debts again as seen later, ratios again. */
  method ReserveDataAfterBorrow(config: Configuration, amountBorrowed: int, borrowRateMode: RateMode, before: ReserveData,
                                txTimestamp: int, currentTimestamp: int)
    returns (expected: ReserveData)
    requires Transitions.Ready(config, before.Value(), txTimestamp) && txTimestamp <= currentTimestamp
    requires 0 <= amountBorrowed <= before.availableLiquidity
    ensures fresh(expected)
    ensures expected.Shows(Transitions.AfterBorrow(config, before.Value(), amountBorrowed, borrowRateMode, txTimestamp, currentTimestamp))
    ensures expected.lastUpdateTimestamp == txTimestamp
  {
    hide RayMul, RayDiv, UsageRatio, Accrual.UpdateState, Transitions.Accrued, Transitions.StableBorrow, Transitions.VariableBorrow;
    Transitions.AccrualFrame(before.Value(), txTimestamp);
    ghost var s := Transitions.UpdateLiquidityAndUsageRatios(
      Transitions.Accrued(before.Value(), txTimestamp), 0, amountBorrowed).(lastUpdateTimestamp := txTimestamp);
    expected := new ReserveData;
    expected.lastUpdateTimestamp := txTimestamp;
    expected.Start(before, 0, amountBorrowed, txTimestamp);
    expected.lastUpdateTimestamp := txTimestamp;
    if borrowRateMode.Stable? {
      expected.BorrowStable(config, before, amountBorrowed, txTimestamp, currentTimestamp, s);
    } else {
      expected.BorrowVariable(config, before, amountBorrowed, txTimestamp, currentTimestamp, s);
    }
  }

  // ---------------------------------------------------------------------------
  // User records
  // ---------------------------------------------------------------------------

  class UserReserveData {
    var scaledRSTokenBalance: int
    var currentRSTokenBalance: int
    var currentStableDebt: int
    var currentVariableDebt: int
    var principalStableDebt: int
    var scaledVariableDebt: int
    var liquidityRate: int
    var stableBorrowRate: int
    var stableRateLastUpdated: int
    var usageAsCollateralEnabled: bool
    var walletBalance: int

    function Value(): User
      reads this
    {
      User(scaledRSTokenBalance, currentRSTokenBalance, currentStableDebt, currentVariableDebt, principalStableDebt,
           scaledVariableDebt, liquidityRate, stableBorrowRate, stableRateLastUpdated, usageAsCollateralEnabled, walletBalance)
    }

    method WriteStableDebt(current: int, principal: int, rate: int, lastUpdated: int)
      modifies this
      ensures Value() == old(Value()).(currentStableDebt := current, principalStableDebt := principal,
                                       stableBorrowRate := rate, stableRateLastUpdated := lastUpdated)
    {
      currentStableDebt := current;
      principalStableDebt := principal;
      stableBorrowRate := rate;
      stableRateLastUpdated := lastUpdated;
    }

    /** What supplying and withdrawing leave of a user's debts: the accrued balances beside the stored parts. */
    method CarryDebts(u: User, stableDebt: int, variableDebt: int)
      modifies this
      ensures Value() == old(Value()).(
                currentStableDebt := stableDebt, currentVariableDebt := variableDebt,
                principalStableDebt := u.principalStableDebt, scaledVariableDebt := u.scaledVariableDebt,
                stableBorrowRate := u.stableBorrowRate, stableRateLastUpdated := u.stableRateLastUpdated)
    {
      WriteStableDebt(stableDebt, u.principalStableDebt, u.stableBorrowRate, u.stableRateLastUpdated);
      currentVariableDebt := variableDebt;
      scaledVariableDebt := u.scaledVariableDebt;
    }

    /** What borrowing and repaying leave of a user's supply, and the wallet after cash moved. */
    method CarrySupply(u: User, newLiquidityRate: int, balance: int, wallet: int)
      modifies this
      ensures Value() == old(Value()).(liquidityRate := newLiquidityRate,
                                       usageAsCollateralEnabled := u.usageAsCollateralEnabled,
                                       currentRSTokenBalance := balance,
                                       scaledRSTokenBalance := u.scaledRSTokenBalance,
                                       walletBalance := wallet)
    {
      liquidityRate := newLiquidityRate;
      usageAsCollateralEnabled := u.usageAsCollateralEnabled;
      currentRSTokenBalance := balance;
      scaledRSTokenBalance := u.scaledRSTokenBalance;
      walletBalance := wallet;
    }

    /** The debts after repaying part of the stable debt. */
    method RepayStableDebt(u: User, variableDebt: int, left: int, txTimestamp: int)
      modifies this
      ensures Value() == old(Value()).(
                scaledVariableDebt := u.scaledVariableDebt, currentVariableDebt := variableDebt,
                currentStableDebt := left, principalStableDebt := left,
                stableBorrowRate := if left == 0 then 0 else u.stableBorrowRate,
                stableRateLastUpdated := if left == 0 then 0 else txTimestamp)
    {
      scaledVariableDebt := u.scaledVariableDebt;
      currentVariableDebt := variableDebt;
      if left == 0 {
        WriteStableDebt(left, left, 0, 0);
      } else {
        WriteStableDebt(left, left, u.stableBorrowRate, txTimestamp);
      }
    }

    /** The debts after repaying part of the variable debt. */
    method RepayVariableDebt(u: User, stableDebt: int, repaid: int, index: int)
      requires index != 0
      modifies this
      ensures var scaled := u.scaledVariableDebt - RayDiv(repaid, index);
              Value() == old(Value()).(
                scaledVariableDebt := scaled, currentVariableDebt := RayMul(scaled, index),
                currentStableDebt := u.principalStableDebt, principalStableDebt := stableDebt,
                stableBorrowRate := u.stableBorrowRate, stableRateLastUpdated := u.stableRateLastUpdated)
    {
      hide RayMul, RayDiv;
      WriteStableDebt(u.principalStableDebt, stableDebt, u.stableBorrowRate, u.stableRateLastUpdated);
      scaledVariableDebt := u.scaledVariableDebt - RayDiv(repaid, index);
      currentVariableDebt := RayMul(scaledVariableDebt, index);
    }
  }

  method UserDataAfterDeposit(amountDeposited: int, r: Reserve, next: Reserve, before: UserReserveData, txTimestamp: int)
    returns (expected: UserReserveData)
    requires next.liquidityIndex != 0
    ensures fresh(expected)
    ensures expected.Value() == Users.UserAfterDeposit(r, next, before.Value(), amountDeposited, txTimestamp)
  {
    hide RayMul, RayDiv, UserStableDebt, VariableDebtBalance, RSTokenBalance;
    var u := before.Value();
    expected := new UserReserveData;
    expected.CarryDebts(u, UserStableDebt(u, txTimestamp), VariableDebtBalance(r, u, txTimestamp));
    expected.liquidityRate := next.liquidityRate;
    expected.scaledRSTokenBalance := Users.ScaledRSTokenBalance(u, next.liquidityIndex, amountDeposited, 0);
    expected.currentRSTokenBalance := RSTokenBalance(r, u, txTimestamp) + amountDeposited;
    if u.currentRSTokenBalance == 0 {
      expected.usageAsCollateralEnabled := true;
    } else {
      expected.usageAsCollateralEnabled := u.usageAsCollateralEnabled;
    }
    expected.walletBalance := u.walletBalance - amountDeposited;
    expected.principalStableDebt := UserStableDebt(u, txTimestamp);
    expected.currentStableDebt := expected.principalStableDebt;
    expected.principalStableDebt := VariableDebtBalance(r, u, txTimestamp);
    expected.currentVariableDebt := expected.principalStableDebt;
  }

  method UserDataAfterWithdraw(amountWithdrawn: int, r: Reserve, next: Reserve, before: UserReserveData, txTimestamp: int)
    returns (expected: UserReserveData)
    requires next.liquidityIndex != 0
    ensures fresh(expected)
    ensures expected.Value() == Users.UserAfterWithdraw(r, next, before.Value(), amountWithdrawn, txTimestamp)
  {
    hide RayMul, RayDiv, UserStableDebt, VariableDebtBalance, RSTokenBalance;
    var u := before.Value();
    expected := new UserReserveData;
    var balance := RSTokenBalance(r, u, txTimestamp);
    var amount := amountWithdrawn;
    if amount == Transitions.MAX_UINT_AMOUNT {
      amount := balance;
    }
    expected.scaledRSTokenBalance := Users.ScaledRSTokenBalance(u, next.liquidityIndex, 0, amount);
    expected.currentRSTokenBalance := balance - amount;
    expected.CarryDebts(u, UserStableDebt(u, txTimestamp), VariableDebtBalance(r, u, txTimestamp));
    expected.liquidityRate := next.liquidityRate;
    if u.currentRSTokenBalance == 0 {
      expected.usageAsCollateralEnabled := true;
    } else if expected.currentRSTokenBalance == 0 {
      expected.usageAsCollateralEnabled := false;
    } else {
      expected.usageAsCollateralEnabled := u.usageAsCollateralEnabled;
    }
    expected.walletBalance := u.walletBalance + amount;
  }

  /** How a borrower stands: a stable debt grown by the amount, at a rate between the old one and the one
      on offer; a variable debt that, seen at once, is the scaled one at the index left. */
  predicate BorrowedSensibly(r: Reserve, next: Reserve, u: User, n: User, amount: int, mode: RateMode, now: int, seen: int) {
    match mode
    case Stable =>
      amount > 0 && u.principalStableDebt >= 0 && u.stableBorrowRate >= 0 && r.stableBorrowRate >= 0
      && u.stableRateLastUpdated <= now ==>
        && n.principalStableDebt >= u.principalStableDebt + amount
        && (u.stableBorrowRate <= n.stableBorrowRate <= r.stableBorrowRate
            || r.stableBorrowRate <= n.stableBorrowRate <= u.stableBorrowRate)
    case Variable =>
      next.variableBorrowIndex > 0 && next.lastUpdateTimestamp == now == seen ==>
        n.currentVariableDebt == RayMul(n.scaledVariableDebt, next.variableBorrowIndex)
  }

  lemma BorrowReadings(r: Reserve, next: Reserve, u: User, amount: int, mode: RateMode, now: int, seen: int)
    requires next.variableBorrowIndex != 0
    requires mode.Stable? ==> UserStableDebt(u, now) + amount != 0
    ensures BorrowedSensibly(r, next, u, Users.UserAfterBorrow(r, next, u, amount, mode, now, seen), amount, mode, now, seen)
  {
    hide RayMul, RayDiv, UserStableDebt, VariableDebtBalance, RSTokenBalance, UserStableRate;
    if mode.Stable? {
      if amount > 0 && u.principalStableDebt >= 0 && u.stableBorrowRate >= 0 && r.stableBorrowRate >= 0
         && u.stableRateLastUpdated <= now {
        Users.UserStableRateIsBetween(r, next, u, amount, now, seen);
      }
    } else if next.variableBorrowIndex > 0 && next.lastUpdateTimestamp == now == seen {
      Users.VariableDebtSeenAtOnce(r, next, u, amount, now);
    }
  }

  method UserDataAfterBorrow(amountBorrowed: int, interestRateMode: RateMode, r: Reserve, next: Reserve,
                             before: UserReserveData, txTimestamp: int, currentTimestamp: int)
    returns (expected: UserReserveData)
    requires next.variableBorrowIndex != 0
    requires interestRateMode.Stable? ==> UserStableDebt(before.Value(), txTimestamp) + amountBorrowed != 0
    ensures fresh(expected)
    ensures expected.Value() == Users.UserAfterBorrow(r, next, before.Value(), amountBorrowed, interestRateMode,
                                                      txTimestamp, currentTimestamp)
    ensures BorrowedSensibly(r, next, before.Value(), expected.Value(), amountBorrowed, interestRateMode,
                             txTimestamp, currentTimestamp)
  {
    hide RayMul, RayDiv, StableDebtBalance, ReserveNormalizedDebt, RSTokenBalance, UserStableRate, BorrowedSensibly;
    var u := before.Value();
    expected := new UserReserveData;
    if interestRateMode.Stable? {
      var stableDebtUntilTx := UserStableDebt(u, txTimestamp);
      var principal := stableDebtUntilTx + amountBorrowed;
      var rate := UserStableRate(stableDebtUntilTx, u.stableBorrowRate, amountBorrowed, r.stableBorrowRate);
      expected.WriteStableDebt(StableDebtBalance(principal, rate, txTimestamp, currentTimestamp), principal, rate, txTimestamp);
      expected.scaledVariableDebt := u.scaledVariableDebt;
    } else {
      expected.scaledVariableDebt := r.scaledVariableDebt + RayDiv(amountBorrowed, next.variableBorrowIndex);
      expected.WriteStableDebt(UserStableDebt(u, currentTimestamp), u.principalStableDebt, u.stableBorrowRate,
                               u.stableRateLastUpdated);
    }
    expected.currentVariableDebt := VariableDebtBalance(next, expected.Value(), currentTimestamp);
    expected.CarrySupply(u, next.liquidityRate, RSTokenBalance(next, u, currentTimestamp), u.walletBalance + amountBorrowed);
    BorrowReadings(r, next, u, amountBorrowed, interestRateMode, txTimestamp, currentTimestamp);
  }

  method UserDataAfterRepay(totalRepaid: int, rateMode: RateMode, r: Reserve, next: Reserve, before: UserReserveData,
                            ownDebt: bool, txTimestamp: int, currentTimestamp: int)
    returns (expected: UserReserveData)
    requires next.variableBorrowIndex != 0
    ensures fresh(expected)
    ensures expected.Value() == Users.UserAfterRepay(r, next, before.Value(), totalRepaid, rateMode, ownDebt,
                                                     txTimestamp, currentTimestamp)
    ensures totalRepaid == Transitions.MAX_UINT_AMOUNT && r.Valid() && r.lastUpdateTimestamp <= currentTimestamp
            && Users.Borrower(r, before.Value())
            && next.variableBorrowIndex == Transitions.Accrued(r, currentTimestamp).variableBorrowIndex ==>
              && (rateMode.Stable? ==> expected.currentStableDebt == 0 && expected.stableBorrowRate == 0)
              && (rateMode.Variable? ==> expected.scaledVariableDebt == 0 && expected.currentVariableDebt == 0)
  {
    hide RayMul, RayDiv, UserStableDebt, VariableDebtBalance, RSTokenBalance, Transitions.RepaidAmount, Transitions.Accrued,
      Users.Borrower, Reserve.Valid;
    var u := before.Value();
    expected := new UserReserveData;
    var variableDebt := VariableDebtBalance(r, u, currentTimestamp);
    var stableDebt := UserStableDebt(u, currentTimestamp);
    var repaid := Transitions.RepaidAmount(r, u, totalRepaid, rateMode, currentTimestamp);
    if rateMode.Stable? {
      expected.RepayStableDebt(u, variableDebt, stableDebt - repaid, txTimestamp);
    } else {
      expected.RepayVariableDebt(u, stableDebt, repaid, next.variableBorrowIndex);
    }
    expected.CarrySupply(u, next.liquidityRate, RSTokenBalance(r, u, txTimestamp),
                         if ownDebt then u.walletBalance - repaid else u.walletBalance);
    if totalRepaid == Transitions.MAX_UINT_AMOUNT && r.Valid() && r.lastUpdateTimestamp <= currentTimestamp
       && Users.Borrower(r, u) && next.variableBorrowIndex == Transitions.Accrued(r, currentTimestamp).variableBorrowIndex {
      Users.FullRepayClearsUser(r, next, u, rateMode, ownDebt, txTimestamp, currentTimestamp);
    }
  }

  method UserDataAfterSwapRateMode(r: Reserve, next: Reserve, before: UserReserveData, rateMode: RateMode, txTimestamp: int)
    returns (expected: UserReserveData)
    requires next.variableBorrowIndex != 0
    requires rateMode.Variable? ==>
               UserStableDebt(before.Value(), txTimestamp) + VariableDebtBalance(r, before.Value(), txTimestamp) != 0
    ensures fresh(expected)
    ensures expected.Value() == Users.UserAfterSwapRateMode(r, next, before.Value(), rateMode, txTimestamp)
  {
    hide RayMul, RayDiv, UserStableDebt, VariableDebtBalance, RSTokenBalance, UserStableRate;
    var u := before.Value();
    expected := new UserReserveData;
    expected.usageAsCollateralEnabled := u.usageAsCollateralEnabled;
    expected.scaledRSTokenBalance := u.scaledRSTokenBalance;
    expected.walletBalance := u.walletBalance;
    var stableDebtBalance := UserStableDebt(u, txTimestamp);
    var variableDebtBalance := VariableDebtBalance(r, u, txTimestamp);
    expected.currentRSTokenBalance := RSTokenBalance(r, u, txTimestamp);
    if rateMode.Stable? {
      expected.principalStableDebt := 0;
      expected.currentStableDebt := expected.principalStableDebt;
      expected.stableBorrowRate := 0;
      expected.scaledVariableDebt := u.scaledVariableDebt + RayDiv(stableDebtBalance, next.variableBorrowIndex);
      expected.currentVariableDebt := RayMul(expected.scaledVariableDebt, next.variableBorrowIndex);
      expected.stableRateLastUpdated := 0;
    } else {
      expected.currentStableDebt := u.currentStableDebt + variableDebtBalance;
      expected.principalStableDebt := expected.currentStableDebt;
      expected.stableBorrowRate := UserStableRate(stableDebtBalance, u.stableBorrowRate, variableDebtBalance, r.stableBorrowRate);
      expected.stableRateLastUpdated := txTimestamp;
      expected.scaledVariableDebt := 0;
      expected.currentVariableDebt := expected.scaledVariableDebt;
    }
    expected.liquidityRate := next.liquidityRate;
  }
}
