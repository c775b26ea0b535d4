/** What each pool action does to a reserve. */
module Transitions {
  import opened WadRayMath
  import opened Interest
  import opened Rates
  import opened StableRate
  import opened Accrual

  const MAX_UINT_AMOUNT: int :=
    115_792_089_237_316_195_423_570_985_008_687_907_853_269_984_665_640_564_039_457_584_007_913_129_639_935

  datatype RateMode = Stable | Variable

  // ---------------------------------------------------------------------------
  // Steps shared by all actions
  // ---------------------------------------------------------------------------

  predicate NonnegativeDebts(s: Reserve) {
    0 <= s.totalStableDebt && 0 <= s.totalVariableDebt
  }

  /** The usage ratios of a reserve's debts against given liquidity. */
  function WithUsage(s: Reserve, available: int, total: int): Reserve
    requires s.TotalDebt() == 0 || (available + s.TotalDebt() != 0 && total + s.TotalDebt() != 0)
  {
    s.(availableLiquidity := available,
       totalLiquidity := total,
       borrowUsageRatio := UsageRatio(s.TotalDebt(), available),
       supplyUsageRatio := UsageRatio(s.TotalDebt(), total))
  }

  function UpdateLiquidityAndUsageRatios(s: Reserve, added: int, taken: int): Reserve
    requires NonnegativeDebts(s) && 0 <= s.availableLiquidity + added - taken && 0 <= s.unbacked
  {
    var available := s.availableLiquidity + added - taken;
    WithUsage(s, available, available + s.unbacked)
  }

  function UpdateTotalLiquidityAndUsageRatio(s: Reserve): Reserve
    requires s.TotalDebt() == 0
             || (s.availableLiquidity + s.TotalDebt() != 0 && s.availableLiquidity + s.unbacked + s.TotalDebt() != 0)
  {
    WithUsage(s, s.availableLiquidity, s.availableLiquidity + s.unbacked)
  }

  function RatesOf(config: Configuration, s: Reserve): InterestRates
    requires config.Valid()
    requires Computable(config.strategy, s.totalStableDebt, s.totalVariableDebt, s.availableLiquidity, s.totalLiquidity)
  {
    ExpectedInterestRates(config, s.marketStableRate, s.totalStableDebt, s.totalVariableDebt,
                          s.averageStableBorrowRate, s.availableLiquidity, s.totalLiquidity)
  }

  function WithRates(s: Reserve, rates: InterestRates): Reserve {
    s.(liquidityRate := rates.liquidityRate,
       stableBorrowRate := rates.stableBorrowRate,
       variableBorrowRate := rates.variableBorrowRate)
  }

  /** Nothing negative, liquidity adding up. */
  predicate Balanced(s: Reserve) {
    NonnegativeDebts(s) && 0 <= s.availableLiquidity && 0 <= s.unbacked && s.totalLiquidity == s.availableLiquidity + s.unbacked
  }

  /** What the code computes rates and ratios for without failing. Balanced records are among it, and
      most of those that a swap has left with negative stable debt. */
  predicate Settleable(config: Configuration, s: Reserve) {
    && s.totalLiquidity == s.availableLiquidity + s.unbacked
    && Computable(config.strategy, s.totalStableDebt, s.totalVariableDebt, s.availableLiquidity, s.totalLiquidity)
  }

  /** The end of every action: new rates, then the ratios once more. */
  function Settle(config: Configuration, s: Reserve): Reserve
    requires config.Valid() && Settleable(config, s)
  {
    UpdateTotalLiquidityAndUsageRatio(WithRates(s, RatesOf(config, s)))
  }

  /** The state the next action starts from: accrual restarts at the transaction, and so does the
      accrual of stable debt whenever its principal was rewritten. */
  function Committed(s: Reserve, now: int, stableRewritten: bool): Reserve {
    s.(lastUpdateTimestamp := now,
       totalStableDebtLastUpdated := if stableRewritten then now else s.totalStableDebtLastUpdated)
  }

  lemma SettleValid(config: Configuration, s: Reserve)
    requires config.Valid() && Settleable(config, s)
    ensures Settle(config, s).Valid() <==> s.Sound()
  {
    hide RayMul, Curve, UsageRatio, LiquidityRate, OverallBorrowRate, ExcessStableOffset;
    if s.Sound() {
      var d := s.TotalDebt();
      var u := UsageRatio(d, s.availableLiquidity);
      var share := StableDebtShare(s.totalStableDebt, s.totalVariableDebt);
      var st := config.strategy;
      VariableRateNonnegative(st, u);
      CurveNonnegative(st.stableRateSlope1, st.stableRateSlope2, st.optimalUsageRatio, u);
      ExcessOffsetNonnegative(st, share);
      var vr := VariableBorrowRate(st, u);
      OverallNonnegative(s.totalStableDebt, s.totalVariableDebt, vr, s.averageStableBorrowRate);
      LiquidityRateBelowOverall(
        OverallBorrowRate(s.totalStableDebt, s.totalVariableDebt, vr, s.averageStableBorrowRate),
        UsageRatio(d, s.totalLiquidity), config.reserveFactor);
    }
  }

  predicate Ready(config: Configuration, r: Reserve, now: int) {
    config.Valid() && r.Valid() && r.lastUpdateTimestamp <= now
  }

  /** The accrued reserve every action works on. */
  function Accrued(r: Reserve, now: int): (s: Reserve)
    requires r.Valid() && r.lastUpdateTimestamp <= now
    ensures s.Sound() && NonnegativeDebts(s)
    ensures s.availableLiquidity == r.availableLiquidity && s.unbacked == r.unbacked
    ensures s.liquidityIndex >= r.liquidityIndex && s.variableBorrowIndex >= r.variableBorrowIndex
  {
    UpdateStateKeepsSound(r, now);
    UpdateState(r, now)
  }

  // ---------------------------------------------------------------------------
  // Supplying and withdrawing
  // ---------------------------------------------------------------------------

  function AfterDeposit(config: Configuration, r: Reserve, amount: int, now: int): Reserve
    requires Ready(config, r, now) && amount >= 0
  {
    Settle(config, UpdateLiquidityAndUsageRatios(Accrued(r, now), amount, 0))
  }

  function WithdrawnAmount(r: Reserve, u: User, amount: int, now: int): int {
    if amount == MAX_UINT_AMOUNT then RSTokenBalance(r, u, now) else amount
  }

  function AfterWithdraw(config: Configuration, r: Reserve, u: User, amount: int, now: int): Reserve
    requires Ready(config, r, now) && 0 <= WithdrawnAmount(r, u, amount, now) <= r.availableLiquidity
  {
    Settle(config, UpdateLiquidityAndUsageRatios(Accrued(r, now), 0, WithdrawnAmount(r, u, amount, now)))
  }

  // ---------------------------------------------------------------------------
  // Bridging
  // ---------------------------------------------------------------------------

  function AfterMintUnbacked(config: Configuration, r: Reserve, amount: int, now: int): Reserve
    requires Ready(config, r, now) && amount >= 0
  {
    var s := Accrued(r, now).(unbacked := r.unbacked + amount);
    var l := UpdateLiquidityAndUsageRatios(s, 0, 0);
    Settle(config, l.(averageStableBorrowRate :=
      AverageStableRate(r.averageStableBorrowRate, r.totalStableDebt, 0, r.stableBorrowRate)))
  }

  function CumulateToLiquidityIndex(index: int, totalLiquidity: int, amount: int): (r: int)
    requires totalLiquidity > 0 && amount >= 0 && index >= 0
    ensures r >= index
  {
    WadScalingCancels(amount, totalLiquidity);
    RayDivBounds(amount, totalLiquidity);
    FactorGrows(RayDiv(amount, totalLiquidity) + RAY, index);
    RayMul(RayDiv(WadToRay(amount), WadToRay(totalLiquidity)) + RAY, index)
  }

  /** What suppliers and the treasury can claim together at an index. */
  function Claims(scaledSupply: int, scaledTreasury: int, index: int): int {
    RayMul(scaledSupply, index) + RayMul(scaledTreasury, index)
  }

  predicate BackingDefined(r: Reserve, scaledSupply: int, amount: int, fee: int, protocolFee: int, now: int)
    requires r.Valid() && r.lastUpdateTimestamp <= now
  {
    var s := Accrued(r, now);
    && 0 <= scaledSupply && 0 <= amount && 0 <= fee && 0 <= protocolFee <= PERCENTAGE_FACTOR
    && 0 < Claims(scaledSupply, s.accruedToTreasuryScaled, s.liquidityIndex)
  }

  /** Paying a backing fee: the index carries the suppliers' part, the treasury is credited its own. */
  function PayFee(s: Reserve, scaledSupply: int, fee: int, protocolFee: int): (p: Reserve)
    requires s.Sound() && 0 <= scaledSupply && 0 <= fee && 0 <= protocolFee <= PERCENTAGE_FACTOR
    requires 0 < Claims(scaledSupply, s.accruedToTreasuryScaled, s.liquidityIndex)
    ensures p.liquidityIndex >= s.liquidityIndex
    ensures p.accruedToTreasuryScaled >= s.accruedToTreasuryScaled
  {
    PercentMulBounds(fee, protocolFee);
    var toProtocol := PercentMul(fee, protocolFee);
    var index := CumulateToLiquidityIndex(s.liquidityIndex,
                                          Claims(scaledSupply, s.accruedToTreasuryScaled, s.liquidityIndex),
                                          fee - toProtocol);
    RayDivBounds(toProtocol, index);
    s.(liquidityIndex := index,
       accruedToTreasuryScaled := s.accruedToTreasuryScaled + RayDiv(toProtocol, index))
  }

  function BackingAmount(r: Reserve, amount: int): int {
    if amount < r.unbacked then amount else r.unbacked
  }

  function AfterBackUnbacked(config: Configuration, r: Reserve, scaledSupply: int, amount: int, fee: int,
                             protocolFee: int, now: int): Reserve
    requires Ready(config, r, now) && BackingDefined(r, scaledSupply, amount, fee, protocolFee, now)
  {
    var backing := BackingAmount(r, amount);
    var s := PayFee(Accrued(r, now), scaledSupply, fee, protocolFee).(unbacked := r.unbacked - backing);
    var l := UpdateLiquidityAndUsageRatios(s, backing + fee, 0);
    Settle(config, l.(averageStableBorrowRate :=
      AverageStableRate(r.averageStableBorrowRate, r.totalStableDebt, 0, r.stableBorrowRate)))
  }

  // ---------------------------------------------------------------------------
  // Borrowing
  // ---------------------------------------------------------------------------

  lemma StableDebtNonnegative(principal: int, rate: int, last: int, now: int)
    requires principal >= 0 && rate >= 0 && last <= now
    ensures TotalStableDebtAt(principal, rate, last, now) >= 0
    ensures StableDebtBalance(principal, rate, last, now) >= 0
  {
    hide RayMul, CompoundedInterest;
    StableDebtGrows(principal, rate, last, now, now);
  }

  lemma NormalizedDebtNonnegative(scaled: int, rate: int, index: int, last: int, now: int)
    requires scaled >= 0 && rate >= 0 && index >= 0 && last <= now
    ensures RayMul(scaled, ReserveNormalizedDebt(rate, index, last, now)) >= 0
  {
    hide RayMul, CompoundedInterest;
    CompoundedAtLeastLinear(rate, now, last);
    RayMulBounds(CompoundedInterest(rate, now, last), index);
    RayMulBounds(scaled, ReserveNormalizedDebt(rate, index, last, now));
  }

  /** Borrowing at the stable rate, with the debts seen at a later time. */
  function StableBorrow(config: Configuration, r: Reserve, s: Reserve, amount: int, now: int, seen: int): Reserve
    requires Ready(config, r, now) && amount >= 0 && now <= seen && Balanced(s) && s.Sound()
  {
    hide RayMul, RayDiv, UsageRatio, CompoundedInterest;
    StableDebtNonnegative(r.principalStableDebt, r.averageStableBorrowRate, r.totalStableDebtLastUpdated, now);
    var untilTx := TotalStableDebtAt(r.principalStableDebt, r.averageStableBorrowRate, r.totalStableDebtLastUpdated, now);
    AverageNonnegative(r.averageStableBorrowRate, untilTx, amount, r.stableBorrowRate);
    var average := AverageStableRate(r.averageStableBorrowRate, untilTx, amount, r.stableBorrowRate);
    var principal := untilTx + amount;
    var rates := ExpectedInterestRates(config, r.marketStableRate, principal, s.totalVariableDebt, average,
                                       s.availableLiquidity, s.totalLiquidity);
    VariableRateNonnegative(config.strategy, UsageRatio(principal + s.totalVariableDebt, s.availableLiquidity));
    StableDebtNonnegative(principal, average, now, seen);
    NormalizedDebtNonnegative(r.scaledVariableDebt, rates.variableBorrowRate, s.variableBorrowIndex, now, seen);
    var b := WithRates(s, rates).(
      averageStableBorrowRate := average,
      principalStableDebt := principal,
      totalStableDebt := TotalStableDebtAt(principal, average, now, seen),
      totalVariableDebt := RayMul(r.scaledVariableDebt,
                                  ReserveNormalizedDebt(rates.variableBorrowRate, s.variableBorrowIndex, now, seen)));
    WithUsage(b, b.availableLiquidity, b.totalLiquidity)
  }

  /** Borrowing at the variable rate, with the debts seen at a later time. */
  function VariableBorrow(config: Configuration, r: Reserve, s: Reserve, amount: int, now: int, seen: int): Reserve
    requires Ready(config, r, now) && amount >= 0 && now <= seen && Balanced(s) && s.Sound()
  {
    hide RayMul, RayDiv, UsageRatio, CompoundedInterest;
    var scaled := r.scaledVariableDebt + RayDiv(amount, s.variableBorrowIndex);
    RayDivBounds(amount, s.variableBorrowIndex);
    RayMulBounds(scaled, s.variableBorrowIndex);
    StableDebtNonnegative(r.principalStableDebt, r.averageStableBorrowRate, r.totalStableDebtLastUpdated, now);
    StableDebtNonnegative(r.principalStableDebt, r.averageStableBorrowRate, r.totalStableDebtLastUpdated, seen);
    var stableAfterTx := StableDebtBalance(r.principalStableDebt, r.averageStableBorrowRate, r.totalStableDebtLastUpdated, now);
    var variableAfterTx := RayMul(scaled, s.variableBorrowIndex);
    var rates := ExpectedInterestRates(config, r.marketStableRate, stableAfterTx, variableAfterTx,
                                       r.averageStableBorrowRate, s.availableLiquidity, s.totalLiquidity);
    VariableRateNonnegative(config.strategy, UsageRatio(stableAfterTx + variableAfterTx, s.availableLiquidity));
    NormalizedDebtNonnegative(scaled, rates.variableBorrowRate, s.variableBorrowIndex, now, seen);
    var b := WithRates(s, rates).(
      averageStableBorrowRate := r.averageStableBorrowRate,
      principalStableDebt := r.principalStableDebt,
      totalStableDebt := TotalStableDebtAt(r.principalStableDebt, r.averageStableBorrowRate, r.totalStableDebtLastUpdated, seen),
      scaledVariableDebt := scaled,
      totalVariableDebt := RayMul(scaled,
                                  ReserveNormalizedDebt(rates.variableBorrowRate, s.variableBorrowIndex, now, seen)));
    WithUsage(b, b.availableLiquidity, b.totalLiquidity)
  }

  function AfterBorrow(config: Configuration, r: Reserve, amount: int, mode: RateMode, now: int, seen: int): Reserve
    requires Ready(config, r, now) && 0 <= amount <= r.availableLiquidity && now <= seen
  {
    var s := UpdateLiquidityAndUsageRatios(Accrued(r, now), 0, amount).(lastUpdateTimestamp := now);
    if mode.Stable? then StableBorrow(config, r, s, amount, now, seen)
    else VariableBorrow(config, r, s, amount, now, seen)
  }

  /** The debts a borrow leaves behind, before rates and ratios follow them. */
  function BorrowedCore(r: Reserve, s: Reserve, amount: int, mode: RateMode): Reserve
    requires s.variableBorrowIndex > 0
  {
    match mode
    case Stable =>
      var principal := s.totalStableDebt + amount;
      s.(principalStableDebt := principal,
         totalStableDebt := principal,
         averageStableBorrowRate :=
           AverageStableRate(r.averageStableBorrowRate, s.totalStableDebt, amount, r.stableBorrowRate))
    case Variable =>
      var scaled := s.scaledVariableDebt + RayDiv(amount, s.variableBorrowIndex);
      s.(scaledVariableDebt := scaled,
         totalVariableDebt := RayMul(scaled, s.variableBorrowIndex))
  }

  lemma AtItsOwnTransaction(principal: int, rate: int, index: int, now: int)
    requires principal >= 0 && index >= 0
    ensures TotalStableDebtAt(principal, rate, now, now) == principal
    ensures ReserveNormalizedDebt(rate, index, now, now) == index
  {
    NoTimeNoInterest(rate, now);
    hide RayMul, CompoundedInterest;
    RayMulUnit(principal);
    RayMulUnit(index);
  }

  /** The part of an accrued reserve a borrow reads. */
  predicate AccruedFrom(r: Reserve, s: Reserve, now: int) {
    && Balanced(s) && s.Sound()
    && s.principalStableDebt == r.principalStableDebt
    && s.scaledVariableDebt == r.scaledVariableDebt
    && s.averageStableBorrowRate == r.averageStableBorrowRate
    && s.marketStableRate == r.marketStableRate
    && s.totalStableDebt ==
       TotalStableDebtAt(r.principalStableDebt, r.averageStableBorrowRate, r.totalStableDebtLastUpdated, now)
  }

  lemma StableBorrowIsCore(config: Configuration, r: Reserve, s: Reserve, amount: int, now: int)
    requires Ready(config, r, now) && amount >= 0 && AccruedFrom(r, s, now)
    ensures var core := BorrowedCore(r, s, amount, Stable);
            Balanced(core) && StableBorrow(config, r, s, amount, now, now) == Settle(config, core)
  {
    hide RayMul, RayDiv, UsageRatio, ExpectedInterestRates, AverageStableRate, TotalStableDebtAt, ReserveNormalizedDebt;
    var core := BorrowedCore(r, s, amount, Stable);
    AtItsOwnTransaction(core.principalStableDebt, core.averageStableBorrowRate, s.variableBorrowIndex, now);
    AtItsOwnTransaction(core.principalStableDebt, RatesOf(config, core).variableBorrowRate, s.variableBorrowIndex, now);
  }

  lemma VariableBorrowIsCore(config: Configuration, r: Reserve, s: Reserve, amount: int, now: int)
    requires Ready(config, r, now) && amount >= 0 && AccruedFrom(r, s, now)
    ensures var core := BorrowedCore(r, s, amount, Variable);
            Balanced(core) && VariableBorrow(config, r, s, amount, now, now) == Settle(config, core)
  {
    hide RayMul, RayDiv, UsageRatio, ExpectedInterestRates, TotalStableDebtAt, StableDebtBalance, ReserveNormalizedDebt;
    var core := BorrowedCore(r, s, amount, Variable);
    RayDivBounds(amount, s.variableBorrowIndex);
    RayMulBounds(core.scaledVariableDebt, s.variableBorrowIndex);
    StableFormsAgree(r.principalStableDebt, r.averageStableBorrowRate, r.totalStableDebtLastUpdated, now);
    AtItsOwnTransaction(0, RatesOf(config, core).variableBorrowRate, s.variableBorrowIndex, now);
  }

  /** Seen at its own transaction, the long computation of a borrow is: change the debts, then settle. */
  lemma BorrowIsCoreThenSettle(config: Configuration, r: Reserve, amount: int, mode: RateMode, now: int)
    requires Ready(config, r, now) && 0 <= amount <= r.availableLiquidity
    ensures var s := UpdateLiquidityAndUsageRatios(Accrued(r, now), 0, amount).(lastUpdateTimestamp := now);
            var core := BorrowedCore(r, s, amount, mode);
            Balanced(core) && AfterBorrow(config, r, amount, mode, now, now) == Settle(config, core)
  {
    hide RayMul, UsageRatio, AccrueToTreasury, TotalStableDebtAt, Settle, BorrowedCore, StableBorrow, VariableBorrow;
    var s := UpdateLiquidityAndUsageRatios(Accrued(r, now), 0, amount).(lastUpdateTimestamp := now);
    if mode.Stable? {
      StableBorrowIsCore(config, r, s, amount, now);
    } else {
      VariableBorrowIsCore(config, r, s, amount, now);
    }
  }

  // ---------------------------------------------------------------------------
  // Repaying
  // ---------------------------------------------------------------------------

  function RepaidAmount(r: Reserve, u: User, amount: int, mode: RateMode, now: int): int {
    if Abs(amount) == MAX_UINT_AMOUNT then
      if mode.Stable? then UserStableDebt(u, now) else VariableDebtBalance(r, u, now)
    else amount
  }

  datatype StableTotals = StableTotals(total: int, average: int)

  /** Removing a repayment from the stable debt. Rounding can leave a total below the repayment or an
      average below zero; either way what is left is erased. */
  function RepayStable(average: int, debt: int, amount: int, rate: int): StableTotals {
    if debt - amount < 0 then StableTotals(0, 0) else
    var rest := AverageStableRate(average, debt, Negated(amount), rate);
    if rest < 0 then StableTotals(0, 0) else StableTotals(debt - amount, rest)
  }

  /** A stable repayment leaves nothing negative; it is not adjusted exactly when the debt repaid can be
      taken off, and otherwise erases everything. */
  lemma RepayStableNonnegative(average: int, debt: int, amount: int, rate: int)
    requires average >= 0 && debt >= 0 && amount >= 0 && rate >= 0
    ensures var left := RepayStable(average, debt, amount, rate);
            && 0 <= left.total && 0 <= left.average
            && (left.total == debt - amount && left.average == AverageStableRate(average, debt, -amount, rate)
                <==> Removable(average, debt, amount, rate))
            && (!Removable(average, debt, amount, rate) ==> left == StableTotals(0, 0))
  {
    hide AverageStableRate;
    if amount <= debt {
      RemovalNonnegativeIff(average, debt, amount, rate);
    }
  }

  predicate RepayDefined(r: Reserve, u: User, amount: int, mode: RateMode, now: int)
    requires r.Valid() && r.lastUpdateTimestamp <= now
  {
    var paid := RepaidAmount(r, u, amount, mode, now);
    && 0 <= paid
    && (mode.Variable? ==> RayDiv(paid, Accrued(r, now).variableBorrowIndex) <= r.scaledVariableDebt)
  }

  function RepaidCore(s: Reserve, u: User, paid: int, mode: RateMode): Reserve
    requires s.variableBorrowIndex > 0
  {
    match mode
    case Stable =>
      var left := RepayStable(s.averageStableBorrowRate, s.totalStableDebt, paid, u.stableBorrowRate);
      s.(principalStableDebt := left.total, totalStableDebt := left.total, averageStableBorrowRate := left.average)
    case Variable =>
      var scaled := s.scaledVariableDebt - RayDiv(paid, s.variableBorrowIndex);
      s.(scaledVariableDebt := scaled, totalVariableDebt := RayMul(scaled, s.variableBorrowIndex))
  }

  lemma RepaidCoreBalanced(s: Reserve, u: User, paid: int, mode: RateMode)
    requires Balanced(s) && s.variableBorrowIndex > 0
    requires mode.Variable? ==> RayDiv(paid, s.variableBorrowIndex) <= s.scaledVariableDebt
    ensures Balanced(RepaidCore(s, u, paid, mode))
  {
    if mode.Variable? {
      RayMulBounds(s.scaledVariableDebt - RayDiv(paid, s.variableBorrowIndex), s.variableBorrowIndex);
    }
  }

  function AfterRepay(config: Configuration, r: Reserve, u: User, amount: int, mode: RateMode, now: int): Reserve
    requires Ready(config, r, now) && RepayDefined(r, u, amount, mode, now)
  {
    var paid := RepaidAmount(r, u, amount, mode, now);
    var s := UpdateLiquidityAndUsageRatios(Accrued(r, now), paid, 0);
    RepaidCoreBalanced(s, u, paid, mode);
    Settle(config, RepaidCore(s, u, paid, mode).(lastUpdateTimestamp := now))
  }

  // ---------------------------------------------------------------------------
  // Swapping rate mode
  // ---------------------------------------------------------------------------

  /** The code gets through the swap. Nothing is asked of a stable debt above the reserve's total, which
      accumulated rounding can produce, but that the ratios of what it leaves can be computed. */
  predicate SwapDefined(config: Configuration, r: Reserve, u: User, mode: RateMode, now: int)
    requires r.Valid() && r.lastUpdateTimestamp <= now
  {
    match mode
    case Stable =>
      && 0 <= UserStableDebt(u, now)
      && Settleable(config, SwappedCore(r, UpdateLiquidityAndUsageRatios(Accrued(r, now), 0, 0), u, Stable, now))
    case Variable =>
      var debt := VariableDebtBalance(r, u, now);
      0 <= debt && RayDiv(debt, Accrued(r, now).variableBorrowIndex) <= r.scaledVariableDebt
  }

  /** The mode names the debt swapped away. */
  function SwappedCore(r: Reserve, s: Reserve, u: User, mode: RateMode, now: int): Reserve
    requires s.variableBorrowIndex > 0
  {
    match mode
    case Stable =>
      var debt := UserStableDebt(u, now);
      var scaled := s.scaledVariableDebt + RayDiv(debt, s.variableBorrowIndex);
      var left := s.totalStableDebt - debt;
      s.(scaledVariableDebt := scaled,
         totalVariableDebt := RayMul(scaled, s.variableBorrowIndex),
         principalStableDebt := left,
         totalStableDebt := left,
         averageStableBorrowRate :=
           AverageStableRate(r.averageStableBorrowRate, left + debt, Negated(debt), u.stableBorrowRate))
    case Variable =>
      var debt := VariableDebtBalance(r, u, now);
      var scaled := s.scaledVariableDebt - RayDiv(debt, s.variableBorrowIndex);
      s.(scaledVariableDebt := scaled,
         totalVariableDebt := RayMul(scaled, s.variableBorrowIndex),
         principalStableDebt := s.totalStableDebt + debt,
         totalStableDebt := s.totalStableDebt + debt,
         averageStableBorrowRate :=
           AverageStableRate(r.averageStableBorrowRate, r.totalStableDebt, debt, r.stableBorrowRate))
  }

  /** Swapping no more than the stable debt there is leaves nothing negative. */
  lemma SwapWithinTotalBalanced(r: Reserve, u: User, now: int)
    requires r.Valid() && r.lastUpdateTimestamp <= now && 0 <= UserStableDebt(u, now)
    ensures var core := SwappedCore(r, UpdateLiquidityAndUsageRatios(Accrued(r, now), 0, 0), u, Stable, now);
            && core.totalVariableDebt >= 0
            && (Balanced(core) <==> UserStableDebt(u, now) <= Accrued(r, now).totalStableDebt)
  {
    hide RayMul, RayDiv, UsageRatio, UpdateState, AverageStableRate, UserStableDebt;
    var s := Accrued(r, now);
    assert s.scaledVariableDebt == r.scaledVariableDebt by { AccrualFrame(r, now); }
    RayDivBounds(UserStableDebt(u, now), s.variableBorrowIndex);
    RayMulBounds(s.scaledVariableDebt + RayDiv(UserStableDebt(u, now), s.variableBorrowIndex), s.variableBorrowIndex);
  }

  lemma SwappedCoreSettleable(config: Configuration, r: Reserve, u: User, mode: RateMode, now: int)
    requires r.Valid() && r.lastUpdateTimestamp <= now && SwapDefined(config, r, u, mode, now)
    ensures var core := SwappedCore(r, UpdateLiquidityAndUsageRatios(Accrued(r, now), 0, 0), u, mode, now);
            Settleable(config, core) && (mode.Variable? ==> Balanced(core))
  {
    hide RayMul, RayDiv, UsageRatio, UpdateState, AverageStableRate, UserStableDebt, VariableDebtBalance;
    if mode.Variable? {
      var s := Accrued(r, now);
      assert s.scaledVariableDebt == r.scaledVariableDebt by { AccrualFrame(r, now); }
      RayMulBounds(s.scaledVariableDebt - RayDiv(VariableDebtBalance(r, u, now), s.variableBorrowIndex), s.variableBorrowIndex);
    }
  }

  /** What accrual leaves alone. */
  lemma AccrualFrame(r: Reserve, now: int)
    requires r.Valid() && r.lastUpdateTimestamp <= now
    ensures var s := Accrued(r, now);
            s == r.(liquidityIndex := s.liquidityIndex, variableBorrowIndex := s.variableBorrowIndex,
                    totalStableDebt := s.totalStableDebt, totalVariableDebt := s.totalVariableDebt,
                    accruedToTreasuryScaled := s.accruedToTreasuryScaled)
    ensures var s := Accrued(r, now);
            && s.liquidityIndex == LiquidityIndexAt(r, now) && s.variableBorrowIndex == VariableBorrowIndexAt(r, now)
            && s.totalStableDebt == TotalStableDebtAt(r.principalStableDebt, r.averageStableBorrowRate,
                                                      r.totalStableDebtLastUpdated, now)
            && s.totalVariableDebt == RayMul(r.scaledVariableDebt, s.variableBorrowIndex)
  {
    hide RayMul, LiquidityIndexAt, VariableBorrowIndexAt, TotalStableDebtAt, AccrueToTreasury, UsageRatio;
  }

  function AfterSwapRateMode(config: Configuration, r: Reserve, u: User, mode: RateMode, now: int): Reserve
    requires Ready(config, r, now) && SwapDefined(config, r, u, mode, now)
  {
    SwappedCoreSettleable(config, r, u, mode, now);
    Settle(config, SwappedCore(r, UpdateLiquidityAndUsageRatios(Accrued(r, now), 0, 0), u, mode, now))
  }
}
