/** What each pool action does to a user's position, and how that agrees with the reserve. */
module Users {
  import opened WadRayMath
  import opened Interest
  import opened Rates
  import opened StableRate
  import opened Accrual
  import opened Transitions
  import Runs

  function ScaledRSTokenBalance(u: User, index: int, added: int, taken: int): int
    requires index != 0
  {
    u.scaledRSTokenBalance + RayDiv(added, index) - RayDiv(taken, index)
  }

  /** As written in the code, the stored stable principal is overwritten by the variable debt. */
  function UserAfterDeposit(r: Reserve, next: Reserve, u: User, amount: int, now: int): User
    requires next.liquidityIndex != 0
  {
    var stableDebt := UserStableDebt(u, now);
    var variableDebt := VariableDebtBalance(r, u, now);
    u.(scaledRSTokenBalance := ScaledRSTokenBalance(u, next.liquidityIndex, amount, 0),
       currentRSTokenBalance := RSTokenBalance(r, u, now) + amount,
       currentStableDebt := stableDebt,
       currentVariableDebt := variableDebt,
       principalStableDebt := variableDebt,
       liquidityRate := next.liquidityRate,
       usageAsCollateralEnabled := u.currentRSTokenBalance == 0 || u.usageAsCollateralEnabled,
       walletBalance := u.walletBalance - amount)
  }

  function UserAfterWithdraw(r: Reserve, next: Reserve, u: User, amount: int, now: int): User
    requires next.liquidityIndex != 0
  {
    var balance := RSTokenBalance(r, u, now);
    var withdrawn := WithdrawnAmount(r, u, amount, now);
    u.(scaledRSTokenBalance := ScaledRSTokenBalance(u, next.liquidityIndex, 0, withdrawn),
       currentRSTokenBalance := balance - withdrawn,
       currentStableDebt := UserStableDebt(u, now),
       currentVariableDebt := VariableDebtBalance(r, u, now),
       liquidityRate := next.liquidityRate,
       usageAsCollateralEnabled :=
         if u.currentRSTokenBalance == 0 then true
         else if balance - withdrawn == 0 then false
         else u.usageAsCollateralEnabled,
       walletBalance := u.walletBalance + withdrawn)
  }

  /** As written in the code, a variable borrower's scaled debt starts from the whole reserve's. */
  function UserAfterBorrow(r: Reserve, next: Reserve, u: User, amount: int, mode: RateMode, now: int, seen: int): User
    requires next.variableBorrowIndex != 0
    requires mode.Stable? ==> UserStableDebt(u, now) + amount != 0
  {
    var n := match mode
      case Stable =>
        var untilTx := UserStableDebt(u, now);
        var rate := UserStableRate(untilTx, u.stableBorrowRate, amount, r.stableBorrowRate);
        u.(principalStableDebt := untilTx + amount,
           stableRateLastUpdated := now,
           stableBorrowRate := rate,
           currentStableDebt := StableDebtBalance(untilTx + amount, rate, now, seen))
      case Variable =>
        u.(scaledVariableDebt := r.scaledVariableDebt + RayDiv(amount, next.variableBorrowIndex),
           currentStableDebt := UserStableDebt(u, seen));
    n.(currentVariableDebt := VariableDebtBalance(next, n, seen),
       liquidityRate := next.liquidityRate,
       currentRSTokenBalance := RSTokenBalance(next, u, seen),
       walletBalance := u.walletBalance + amount)
  }

  /** As written in the code, a variable repayment stores the old principal as the current stable debt
      and the accrued stable debt as the principal. */
  function UserAfterRepay(r: Reserve, next: Reserve, u: User, amount: int, mode: RateMode, ownDebt: bool,
                          now: int, seen: int): User
    requires next.variableBorrowIndex != 0
  {
    var variableDebt := VariableDebtBalance(r, u, seen);
    var stableDebt := UserStableDebt(u, seen);
    var repaid := RepaidAmount(r, u, amount, mode, seen);
    var n := match mode
      case Stable =>
        var left := stableDebt - repaid;
        u.(currentVariableDebt := variableDebt,
           principalStableDebt := left,
           currentStableDebt := left,
           stableBorrowRate := if left == 0 then 0 else u.stableBorrowRate,
           stableRateLastUpdated := if left == 0 then 0 else now)
      case Variable =>
        var scaled := u.scaledVariableDebt - RayDiv(repaid, next.variableBorrowIndex);
        u.(currentStableDebt := u.principalStableDebt,
           principalStableDebt := stableDebt,
           scaledVariableDebt := scaled,
           currentVariableDebt := RayMul(scaled, next.variableBorrowIndex));
    n.(liquidityRate := next.liquidityRate,
       currentRSTokenBalance := RSTokenBalance(r, u, now),
       walletBalance := if ownDebt then u.walletBalance - repaid else u.walletBalance)
  }

  /** As written in the code, a swap to the stable rate adds to the stable debt last stored, not to
      the accrued one. */
  function UserAfterSwapRateMode(r: Reserve, next: Reserve, u: User, mode: RateMode, now: int): User
    requires next.variableBorrowIndex != 0
    requires mode.Variable? ==> UserStableDebt(u, now) + VariableDebtBalance(r, u, now) != 0
  {
    var stableDebt := UserStableDebt(u, now);
    var variableDebt := VariableDebtBalance(r, u, now);
    var n := match mode
      case Stable =>
        var scaled := u.scaledVariableDebt + RayDiv(stableDebt, next.variableBorrowIndex);
        u.(currentStableDebt := 0,
           principalStableDebt := 0,
           stableBorrowRate := 0,
           stableRateLastUpdated := 0,
           scaledVariableDebt := scaled,
           currentVariableDebt := RayMul(scaled, next.variableBorrowIndex))
      case Variable =>
        u.(principalStableDebt := u.currentStableDebt + variableDebt,
           currentStableDebt := u.currentStableDebt + variableDebt,
           stableBorrowRate := UserStableRate(stableDebt, u.stableBorrowRate, variableDebt, r.stableBorrowRate),
           stableRateLastUpdated := now,
           currentVariableDebt := 0,
           scaledVariableDebt := 0);
    n.(currentRSTokenBalance := RSTokenBalance(r, u, now),
       liquidityRate := next.liquidityRate)
  }

  // ---------------------------------------------------------------------------
  // The index both sides of an action use
  // ---------------------------------------------------------------------------

  /** A user's balances before an action are computed at the accrued indexes. */
  lemma SharedIndexes(r: Reserve, u: User, now: int)
    requires r.Valid() && r.lastUpdateTimestamp <= now
    ensures var s := Accrued(r, now);
            && RAY <= s.liquidityIndex && RAY <= s.variableBorrowIndex
            && RSTokenBalance(r, u, now) == RayMul(u.scaledRSTokenBalance, s.liquidityIndex)
            && (0 <= u.scaledVariableDebt <= r.scaledVariableDebt ==>
                  VariableDebtBalance(r, u, now) == RayMul(u.scaledVariableDebt, s.variableBorrowIndex))
  {
    hide RayMul, Accrued, UsageRatio, LiquidityIndexAt, VariableBorrowIndexAt;
    assert RAY <= Accrued(r, now).liquidityIndex && RAY <= Accrued(r, now).variableBorrowIndex by {
      IndexesNeverFall(r, now);
      AccrualFrame(r, now);
    }
    AccrualFrame(r, now);
    IncomeFormsAgree(r, now);
    if 0 <= u.scaledVariableDebt <= r.scaledVariableDebt {
      DebtFormsAgree(r, u, now);
    }
  }

  /** A user's balances before any action are the scaled ones at the very indexes the action leaves in
      the reserve; only backing moves the supply index on. */
  lemma BalancesAtTheIndexesLeft(config: Configuration, r: Reserve, u: User, e: Runs.Event)
    requires config.Valid() && r.Valid() && Runs.Enabled(config, r, e)
    ensures var n := Runs.After(config, r, e);
            && (!e.action.BackUnbacked? ==>
                  RSTokenBalance(r, u, e.time) == RayMul(u.scaledRSTokenBalance, n.liquidityIndex))
            && (0 <= u.scaledVariableDebt <= r.scaledVariableDebt ==>
                  VariableDebtBalance(r, u, e.time) == RayMul(u.scaledVariableDebt, n.variableBorrowIndex))
  {
    hide RayMul, Accrued, UsageRatio, RSTokenBalance, VariableDebtBalance, Runs.After;
    Runs.EnabledTime(config, r, e);
    Runs.ActionsLeaveAccruedIndexes(config, r, e);
    SharedIndexes(r, u, e.time);
  }

  // ---------------------------------------------------------------------------
  // Supplies
  // ---------------------------------------------------------------------------

  /** A depositor's stated and scaled balance are two readings of what was held before and the amount on
      top of it, which leaves the wallet; whoever held nothing starts to use the holding as collateral. */
  lemma DepositReadingsAgree(config: Configuration, r: Reserve, u: User, amount: int, now: int)
    requires Ready(config, r, now) && amount >= 0 && u.scaledRSTokenBalance >= 0
    ensures var next := AfterDeposit(config, r, amount, now);
            && next.liquidityIndex > 0
            && var n, held := UserAfterDeposit(r, next, u, amount, now), RayMul(u.scaledRSTokenBalance, next.liquidityIndex);
            && n.scaledRSTokenBalance >= u.scaledRSTokenBalance
            && n.currentRSTokenBalance == held + amount
            && 2 * RAY * Abs(RayMul(n.scaledRSTokenBalance, next.liquidityIndex) - n.currentRSTokenBalance)
               <= next.liquidityIndex + 2 * RAY
            && n.walletBalance == u.walletBalance - amount && n.liquidityRate == next.liquidityRate
            && (n.usageAsCollateralEnabled <==> u.usageAsCollateralEnabled || u.currentRSTokenBalance == 0)
  {
    hide RayMul, RayDiv, Accrued, UsageRatio, ExpectedInterestRates, UserStableDebt, VariableDebtBalance, RSTokenBalance;
    SharedIndexes(r, u, now);
    var index := Accrued(r, now).liquidityIndex;
    RayDivAtMostOne(0, index);
    ScaledStep(u.scaledRSTokenBalance, amount, index);
  }

  /** A depositor's debts are stated as they accrued, but the stored stable principal is lost to the
      variable debt. */
  lemma DepositOverwritesPrincipal(config: Configuration, r: Reserve, u: User, amount: int, now: int)
    requires Ready(config, r, now) && amount >= 0 && Borrower(r, u)
    ensures var next := AfterDeposit(config, r, amount, now);
            && next.liquidityIndex > 0
            && var n := UserAfterDeposit(r, next, u, amount, now);
            && n.currentStableDebt == UserStableDebt(u, now)
            && n.currentVariableDebt == RayMul(u.scaledVariableDebt, next.variableBorrowIndex)
            && n.scaledVariableDebt == u.scaledVariableDebt && n.stableBorrowRate == u.stableBorrowRate
            && n.stableRateLastUpdated == u.stableRateLastUpdated
            && n.principalStableDebt == n.currentVariableDebt
  {
    hide RayMul, RayDiv, Accrued, UsageRatio, ExpectedInterestRates, UserStableDebt, VariableDebtBalance, RSTokenBalance;
    SharedIndexes(r, u, now);
  }

  /** Withdrawing no more than the balance leaves what was held less the amount, which enters the wallet;
      withdrawing everything leaves exactly nothing: no scaled balance, no balance, and no collateral. */
  lemma WithdrawReadings(config: Configuration, r: Reserve, u: User, amount: int, now: int)
    requires Ready(config, r, now) && u.scaledRSTokenBalance >= 0
    requires 0 <= WithdrawnAmount(r, u, amount, now) <= RSTokenBalance(r, u, now)
    requires WithdrawnAmount(r, u, amount, now) <= r.availableLiquidity
    ensures var next := AfterWithdraw(config, r, u, amount, now);
            && next.liquidityIndex > 0
            && var n, held := UserAfterWithdraw(r, next, u, amount, now), RayMul(u.scaledRSTokenBalance, next.liquidityIndex);
            && 0 <= n.scaledRSTokenBalance <= u.scaledRSTokenBalance && 0 <= n.currentRSTokenBalance
            && 2 * RAY * Abs(RayMul(n.scaledRSTokenBalance, next.liquidityIndex) - n.currentRSTokenBalance)
               <= next.liquidityIndex + 2 * RAY
            && n.liquidityRate == next.liquidityRate
            && (amount != MAX_UINT_AMOUNT ==>
                  n.currentRSTokenBalance == held - amount && n.walletBalance == u.walletBalance + amount)
            && (amount == MAX_UINT_AMOUNT ==>
                  n.scaledRSTokenBalance == 0 && n.currentRSTokenBalance == 0 && n.walletBalance == u.walletBalance + held)
            && (n.usageAsCollateralEnabled <==>
                  u.currentRSTokenBalance == 0 || (n.currentRSTokenBalance > 0 && u.usageAsCollateralEnabled))
  {
    hide RayMul, RayDiv, Accrued, UsageRatio, ExpectedInterestRates, UserStableDebt, VariableDebtBalance, RSTokenBalance;
    SharedIndexes(r, u, now);
    var index, withdrawn := Accrued(r, now).liquidityIndex, WithdrawnAmount(r, u, amount, now);
    RayDivAtMostOne(0, index);
    ScaledWithdrawal(u.scaledRSTokenBalance, withdrawn, index);
    RebaseThenScale(u.scaledRSTokenBalance, index);
  }

  /** A withdrawal states the user's debts as they accrued and changes nothing stored of them. */
  lemma WithdrawKeepsDebts(config: Configuration, r: Reserve, u: User, amount: int, now: int)
    requires Ready(config, r, now) && 0 <= WithdrawnAmount(r, u, amount, now) <= r.availableLiquidity && Borrower(r, u)
    ensures var next := AfterWithdraw(config, r, u, amount, now);
            && next.liquidityIndex > 0
            && var n := UserAfterWithdraw(r, next, u, amount, now);
            && n.currentStableDebt == UserStableDebt(n, now) == UserStableDebt(u, now)
            && n.currentVariableDebt == RayMul(n.scaledVariableDebt, next.variableBorrowIndex)
            && n.scaledVariableDebt == u.scaledVariableDebt && n.principalStableDebt == u.principalStableDebt
            && n.stableBorrowRate == u.stableBorrowRate && n.stableRateLastUpdated == u.stableRateLastUpdated
  {
    hide RayMul, RayDiv, Accrued, UsageRatio, ExpectedInterestRates, StableDebtBalance, VariableDebtBalance, RSTokenBalance;
    SharedIndexes(r, u, now);
  }

  /** Borrowing, repaying and swapping leave a user's holding alone: the same scaled balance, stated at the
      index left, and the same use as collateral. */
  predicate HoldingKept(next: Reserve, u: User, n: User) {
    && n.scaledRSTokenBalance == u.scaledRSTokenBalance
    && n.currentRSTokenBalance == RayMul(u.scaledRSTokenBalance, next.liquidityIndex)
    && n.usageAsCollateralEnabled == u.usageAsCollateralEnabled
    && n.liquidityRate == next.liquidityRate
  }

  lemma DebtActionsKeepHolding(config: Configuration, r: Reserve, u: User, e: Runs.Event, ownDebt: bool)
    requires config.Valid() && r.Valid() && Runs.Enabled(config, r, e)
    ensures var next := Runs.After(config, r, e);
            && next.variableBorrowIndex > 0
            && (e.action.Borrow? && (e.action.mode.Stable? ==> UserStableDebt(u, e.time) + e.action.amount != 0) ==>
                  HoldingKept(next, u, UserAfterBorrow(r, next, u, e.action.amount, e.action.mode, e.time, e.time)))
            && (e.action.Repay? ==>
                  HoldingKept(next, u, UserAfterRepay(r, next, u, e.action.amount, e.action.mode, ownDebt, e.time, e.time)))
            && (e.action.SwapRateMode?
                && (e.action.mode.Variable? ==> UserStableDebt(u, e.time) + VariableDebtBalance(r, u, e.time) != 0) ==>
                  HoldingKept(next, u, UserAfterSwapRateMode(r, next, u, e.action.mode, e.time)))
  {
    hide RayMul, RayDiv, Accrued, UsageRatio, Runs.After, Runs.Enabled, StableDebtBalance, ReserveNormalizedDebt, UserStableRate,
      RepaidAmount, RSTokenBalance;
    Runs.EnabledTime(config, r, e);
    Runs.ActionsLeaveAccruedIndexes(config, r, e);
    BalancesAtTheIndexesLeft(config, r, u, e);
    SharedIndexes(r, u, e.time);
    if e.action.Borrow? {
      BorrowStampsReserve(config, r, e);
      BalanceAtItsStamp(Runs.After(config, r, e), u, e.time);
    }
  }

  lemma BorrowStampsReserve(config: Configuration, r: Reserve, e: Runs.Event)
    requires config.Valid() && r.Valid() && Runs.Enabled(config, r, e) && e.action.Borrow?
    ensures Runs.After(config, r, e).lastUpdateTimestamp == e.time
  {
    hide RayMul, RayDiv, UsageRatio, ExpectedInterestRates, Accrued, AverageStableRate, TotalStableDebtAt, ReserveNormalizedDebt;
  }

  lemma BalanceAtItsStamp(next: Reserve, u: User, now: int)
    requires next.lastUpdateTimestamp == now && next.liquidityIndex >= 0
    ensures RSTokenBalance(next, u, now) == RayMul(u.scaledRSTokenBalance, next.liquidityIndex)
  {
    NoTimeNoInterest(next.liquidityRate, now);
    RayMulUnit(next.liquidityIndex);
    hide RayMul, LinearInterest;
  }

  /** The scaled form of part of a balance fits in the scaled balance. */
  lemma ScaledWithdrawal(scaled: int, amount: int, index: int)
    requires scaled >= 0 && index >= RAY && 0 <= amount <= RayMul(scaled, index)
    ensures 0 <= RayDiv(amount, index) <= scaled
    ensures 2 * RAY * Abs(RayMul(scaled - RayDiv(amount, index), index) - (RayMul(scaled, index) - amount))
            <= index + 2 * RAY
  {
    hide RayMul, RayDiv;
    RebaseThenScale(scaled, index);
    RayDivMonotone(amount, RayMul(scaled, index), index, index);
    RayDivBounds(amount, index);
    ScaledStep(scaled - RayDiv(amount, index), amount, index);
  }

  // ---------------------------------------------------------------------------
  // Debts
  // ---------------------------------------------------------------------------

  predicate Borrower(r: Reserve, u: User) {
    0 <= u.scaledVariableDebt <= r.scaledVariableDebt
  }

  /** A repayment of at most the user's variable debt always fits in what the reserve has lent. */
  lemma RepayWithinDebtIsDefined(r: Reserve, u: User, amount: int, now: int)
    requires r.Valid() && r.lastUpdateTimestamp <= now && Borrower(r, u)
    requires 0 <= amount <= VariableDebtBalance(r, u, now) || amount == MAX_UINT_AMOUNT
    ensures RepayDefined(r, u, amount, Variable, now)
    ensures RayDiv(RepaidAmount(r, u, amount, Variable, now), Accrued(r, now).variableBorrowIndex) <= u.scaledVariableDebt
  {
    hide RayMul, RayDiv, Accrued, UsageRatio, VariableDebtBalance;
    SharedIndexes(r, u, now);
    RayMulBounds(u.scaledVariableDebt, Accrued(r, now).variableBorrowIndex);
    ScaledWithdrawal(u.scaledVariableDebt, RepaidAmount(r, u, amount, Variable, now), Accrued(r, now).variableBorrowIndex);
  }

  /** Repaying all variable debt removes the user's whole share, and exactly that share from the
      reserve's scaled total. */
  lemma FullVariableRepayIsExact(config: Configuration, r: Reserve, u: User, ownDebt: bool, now: int)
    requires Ready(config, r, now) && Borrower(r, u)
    ensures RepayDefined(r, u, MAX_UINT_AMOUNT, Variable, now)
    ensures var next := AfterRepay(config, r, u, MAX_UINT_AMOUNT, Variable, now);
            && next.variableBorrowIndex > 0
            && next.scaledVariableDebt == r.scaledVariableDebt - u.scaledVariableDebt
            && var n := UserAfterRepay(r, next, u, MAX_UINT_AMOUNT, Variable, ownDebt, now, now);
            n.scaledVariableDebt == 0 && n.currentVariableDebt == 0
  {
    RepayWithinDebtIsDefined(r, u, MAX_UINT_AMOUNT, now);
    hide RayMul, RayDiv, Accrued, UsageRatio, ExpectedInterestRates, UserStableDebt, VariableDebtBalance, RSTokenBalance;
    SharedIndexes(r, u, now);
    AccrualFrame(r, now);
    var index := Accrued(r, now).variableBorrowIndex;
    RebaseThenScale(u.scaledVariableDebt, index);
    RayMulUnit(index);
  }

  lemma VariableRepayFields(config: Configuration, r: Reserve, u: User, amount: int, now: int)
    requires Ready(config, r, now) && RepayDefined(r, u, amount, Variable, now)
    ensures var s, paid := Accrued(r, now), RepaidAmount(r, u, amount, Variable, now);
            var next := AfterRepay(config, r, u, amount, Variable, now);
            && next.variableBorrowIndex == s.variableBorrowIndex > 0
            && next.scaledVariableDebt == r.scaledVariableDebt - RayDiv(paid, s.variableBorrowIndex)
            && next.totalVariableDebt == RayMul(next.scaledVariableDebt, next.variableBorrowIndex)
            && next.availableLiquidity == r.availableLiquidity + paid
  {
    hide RayMul, RayDiv, Accrued, UsageRatio, Settle, RepaidAmount;
    AccrualFrame(r, now);
    var paid := RepaidAmount(r, u, amount, Variable, now);
    var s := UpdateLiquidityAndUsageRatios(Accrued(r, now), paid, 0);
    RepaidCoreBalanced(s, u, paid, Variable);
    SettleKeepsDebts(config, RepaidCore(s, u, paid, Variable).(lastUpdateTimestamp := now));
  }

  lemma RepaymentFits(r: Reserve, u: User, amount: int, now: int)
    requires r.Valid() && r.lastUpdateTimestamp <= now && RepayDefined(r, u, amount, Variable, now)
    ensures RepaidAmount(r, u, amount, Variable, now) >= 0
    ensures RayDiv(RepaidAmount(r, u, amount, Variable, now), Accrued(r, now).variableBorrowIndex) <= r.scaledVariableDebt
  {
    hide RepaidAmount, Accrued, RayDiv;
  }

  /** A partial repayment turns cash into as much less debt. */
  lemma RepayMovesDebtIntoCash(config: Configuration, r: Reserve, u: User, amount: int, now: int)
    requires Ready(config, r, now) && RepayDefined(r, u, amount, Variable, now)
    ensures var paid := RepaidAmount(r, u, amount, Variable, now);
            var next := AfterRepay(config, r, u, amount, Variable, now);
            && next.availableLiquidity == r.availableLiquidity + paid
            && 2 * RAY * Abs(next.totalVariableDebt - (Accrued(r, now).totalVariableDebt - paid))
               <= next.variableBorrowIndex + 2 * RAY
  {
    hide RayMul, RayDiv, Accrued, UsageRatio, RepaidAmount, AfterRepay, RepayDefined;
    AccrualFrame(r, now);
    VariableRepayFields(config, r, u, amount, now);
    RepaymentFits(r, u, amount, now);
    var index, paid := Accrued(r, now).variableBorrowIndex, RepaidAmount(r, u, amount, Variable, now);
    RayDivBounds(paid, index);
    ScaledStep(r.scaledVariableDebt - RayDiv(paid, index), paid, index);
  }

  /** A partial repayment lowers the user's scaled debt and the reserve's by the same amount. */
  lemma RepayMovesBothAlike(config: Configuration, r: Reserve, u: User, amount: int, ownDebt: bool, now: int)
    requires Ready(config, r, now) && Borrower(r, u)
    requires 0 <= amount <= VariableDebtBalance(r, u, now) || amount == MAX_UINT_AMOUNT
    ensures RepayDefined(r, u, amount, Variable, now)
    ensures var next := AfterRepay(config, r, u, amount, Variable, now);
            && next.variableBorrowIndex > 0
            && var n := UserAfterRepay(r, next, u, amount, Variable, ownDebt, now, now);
            && r.scaledVariableDebt - next.scaledVariableDebt == u.scaledVariableDebt - n.scaledVariableDebt
            && Borrower(next, n)
  {
    RepayWithinDebtIsDefined(r, u, amount, now);
    hide RayMul, RayDiv, Accrued, UsageRatio, UserStableDebt, VariableDebtBalance, RSTokenBalance, RepaidAmount, AfterRepay,
      RepayDefined;
    VariableRepayFields(config, r, u, amount, now);
  }

  /** Repaying part of the stable debt leaves the user owing just that much less, accruing from now on at
      the same rate. */
  lemma StableRepayReadings(r: Reserve, next: Reserve, u: User, amount: int, ownDebt: bool, now: int)
    requires next.variableBorrowIndex != 0 && 0 <= amount < UserStableDebt(u, now) && amount != MAX_UINT_AMOUNT
    ensures var n := UserAfterRepay(r, next, u, amount, Stable, ownDebt, now, now);
            && n.currentStableDebt == UserStableDebt(n, now) == UserStableDebt(u, now) - amount
            && n.stableBorrowRate == u.stableBorrowRate && n.stableRateLastUpdated == now
            && n.scaledVariableDebt == u.scaledVariableDebt && n.currentVariableDebt == VariableDebtBalance(r, u, now)
            && n.walletBalance == u.walletBalance - (if ownDebt then amount else 0)
  {
    hide RayMul, CompoundedInterest, VariableDebtBalance, RSTokenBalance;
  }

  /** Repaying part of the variable debt leaves the user owing that much less, up to rounding. */
  lemma VariableRepayReadings(config: Configuration, r: Reserve, u: User, amount: int, ownDebt: bool, now: int)
    requires Ready(config, r, now) && Borrower(r, u) && 0 <= amount <= VariableDebtBalance(r, u, now) && amount != MAX_UINT_AMOUNT
    ensures RepayDefined(r, u, amount, Variable, now)
    ensures var next := AfterRepay(config, r, u, amount, Variable, now);
            && next.variableBorrowIndex > 0
            && var n := UserAfterRepay(r, next, u, amount, Variable, ownDebt, now, now);
            && n.currentVariableDebt == RayMul(n.scaledVariableDebt, next.variableBorrowIndex)
            && 2 * RAY * Abs(n.currentVariableDebt - (VariableDebtBalance(r, u, now) - amount)) <= next.variableBorrowIndex + 2 * RAY
            && n.walletBalance == u.walletBalance - (if ownDebt then amount else 0)
  {
    RepayWithinDebtIsDefined(r, u, amount, now);
    hide RayMul, RayDiv, Accrued, UsageRatio, VariableDebtBalance, RSTokenBalance, AfterRepay, RepayDefined, UserStableDebt;
    SharedIndexes(r, u, now);
    VariableRepayFields(config, r, u, amount, now);
    ScaledWithdrawal(u.scaledVariableDebt, amount, Accrued(r, now).variableBorrowIndex);
  }

  /** The two stable fields come out of a variable repayment exchanged: the stored principal takes on the
      interest so far while its stamp stays, so that this time is charged again. */
  lemma VariableRepayExchangesStable(r: Reserve, next: Reserve, u: User, amount: int, ownDebt: bool, now: int)
    requires next.variableBorrowIndex != 0
    requires u.principalStableDebt >= 0 && u.stableBorrowRate >= 0 && u.stableRateLastUpdated <= now
    ensures var n := UserAfterRepay(r, next, u, amount, Variable, ownDebt, now, now);
            && n.stableBorrowRate == u.stableBorrowRate && n.stableRateLastUpdated == u.stableRateLastUpdated
            && n.currentStableDebt == u.principalStableDebt && n.principalStableDebt == UserStableDebt(u, now)
            && UserStableDebt(n, now) >= n.principalStableDebt >= u.principalStableDebt
  {
    hide RayMul, RayDiv, VariableDebtBalance, RSTokenBalance, StableDebtBalance, RepaidAmount;
    StableDebtNotBelowPrincipal(u.principalStableDebt, u.stableBorrowRate, u.stableRateLastUpdated, now);
    StableDebtNotBelowPrincipal(UserStableDebt(u, now), u.stableBorrowRate, u.stableRateLastUpdated, now);
  }

  lemma StableDebtNotBelowPrincipal(principal: int, rate: int, last: int, now: int)
    requires principal >= 0 && rate >= 0 && last <= now
    ensures StableDebtBalance(principal, rate, last, now) >= principal
  {
    hide RayMul, CompoundedInterest;
    StableDebtGrows(principal, rate, last, now, now);
  }

  /** Repaying all stable debt leaves the user no debt, no rate and no stamp. It takes exactly that debt
      off the reserve's total when it fits; otherwise everything left of the total is erased, which is
      what a swap of the same debt does not do. */
  lemma FullStableRepayClears(config: Configuration, r: Reserve, u: User, ownDebt: bool, now: int)
    requires Ready(config, r, now) && 0 <= UserStableDebt(u, now) && 0 <= u.stableBorrowRate
    ensures RepayDefined(r, u, MAX_UINT_AMOUNT, Stable, now)
    ensures var s, debt := Accrued(r, now), UserStableDebt(u, now);
            var next := AfterRepay(config, r, u, MAX_UINT_AMOUNT, Stable, now);
            && next.availableLiquidity == r.availableLiquidity + debt
            && next.scaledVariableDebt == r.scaledVariableDebt && next.totalVariableDebt == s.totalVariableDebt
            && next.principalStableDebt == next.totalStableDebt
            && (if Runs.SwapFits(r, u, now) then next.totalStableDebt == s.totalStableDebt - debt
                else next.totalStableDebt == 0 && next.averageStableBorrowRate == 0)
            && next.variableBorrowIndex > 0
            && var n := UserAfterRepay(r, next, u, MAX_UINT_AMOUNT, Stable, ownDebt, now, now);
            && n.principalStableDebt == 0 && n.currentStableDebt == 0 && n.stableBorrowRate == 0 && n.stableRateLastUpdated == 0
            && n.scaledVariableDebt == u.scaledVariableDebt
            && n.walletBalance == u.walletBalance - (if ownDebt then debt else 0)
  {
    hide RayMul, RayDiv, Accrued, UsageRatio, Settle, AverageStableRate, UserStableDebt, VariableDebtBalance, RSTokenBalance;
    AccrualFrame(r, now);
    var debt := UserStableDebt(u, now);
    var s := UpdateLiquidityAndUsageRatios(Accrued(r, now), debt, 0);
    RepaidCoreBalanced(s, u, debt, Stable);
    SettleKeepsDebts(config, RepaidCore(s, u, debt, Stable).(lastUpdateTimestamp := now));
    RemovalNonnegativeIff(s.averageStableBorrowRate, s.totalStableDebt, debt, u.stableBorrowRate);
  }

  /** A variable borrow is booked alike on both sides exactly for a sole borrower: the user's new scaled
      debt is computed from the reserve's, which books to the user what all others owe as well. */
  lemma BorrowMovesBothAlikeIff(config: Configuration, r: Reserve, u: User, amount: int, now: int)
    requires Ready(config, r, now) && 0 <= amount <= r.availableLiquidity && Borrower(r, u)
    ensures var next := AfterBorrow(config, r, amount, Variable, now, now);
            && next.variableBorrowIndex > 0
            && var n := UserAfterBorrow(r, next, u, amount, Variable, now, now);
            && (next.scaledVariableDebt - r.scaledVariableDebt == n.scaledVariableDebt - u.scaledVariableDebt
                <==> u.scaledVariableDebt == r.scaledVariableDebt)
            && n.scaledVariableDebt - u.scaledVariableDebt ==
               next.scaledVariableDebt - r.scaledVariableDebt + (r.scaledVariableDebt - u.scaledVariableDebt)
            && Borrower(next, n)
  {
    hide RayMul, RayDiv, Accrued, UsageRatio, Settle, UserStableDebt, VariableDebtBalance, RSTokenBalance, AfterBorrow;
    BorrowIsCoreThenSettle(config, r, amount, Variable, now);
    AccrualFrame(r, now);
    SharedIndexes(r, u, now);
    var s := UpdateLiquidityAndUsageRatios(Accrued(r, now), 0, amount).(lastUpdateTimestamp := now);
    SettleKeepsDebts(config, BorrowedCore(r, s, amount, Variable));
    RayDivBounds(amount, s.variableBorrowIndex);
  }

  /** A reserve that has lent two units at the variable rate and has one left. */
  function VariableLender(): Reserve {
    Runs.FreshReserve(0, 0).(scaledVariableDebt := 2, totalVariableDebt := 2, availableLiquidity := 1, totalLiquidity := 1,
                             borrowUsageRatio := UsageRatio(2, 1), supplyUsageRatio := UsageRatio(2, 1))
  }

  function VariableBorrower(debt: int): User {
    User(0, 0, 0, debt, 0, debt, 0, 0, 0, false, 0)
  }

  lemma VariableLenderReady(config: Configuration)
    requires config.Valid()
    ensures Ready(config, VariableLender(), 0) && VariableLender().availableLiquidity == 1
    ensures VariableLender().scaledVariableDebt == 2 && Accrued(VariableLender(), 0).variableBorrowIndex == RAY
  {
    hide RayDiv, TruncDiv, UsageRatio, CompoundedInterest, AccrueToTreasury, LiquidityIndexAt;
    RayMulUnit(2);
    RayMulUnit(RAY);
    NoTimeNoInterest(0, 0);
    assert RayMul(2, RAY) == 2;
    hide RayMul;
    var r := VariableLender();
    assert r.Valid();
    AccrualFrame(r, 0);
  }

  /** A borrow that books a user more scaled debt than the reserve, by some amount. */
  ghost predicate Overbooked(config: Configuration, r: Reserve, u: User, amount: int, now: int, excess: int) {
    && Ready(config, r, now) && Borrower(r, u) && 0 <= amount <= r.availableLiquidity
    && var next := AfterBorrow(config, r, amount, Variable, now, now);
    && next.variableBorrowIndex > 0
    && var n := UserAfterBorrow(r, next, u, amount, Variable, now, now);
    n.scaledVariableDebt - u.scaledVariableDebt == next.scaledVariableDebt - r.scaledVariableDebt + excess
  }

  /** The exception is real: of two borrowers with one unit each, one borrows the last unit, and is
      booked a unit more than the reserve. */
  lemma BorrowCanMoveApart(config: Configuration)
    requires config.Valid()
    ensures Overbooked(config, VariableLender(), VariableBorrower(1), 1, 0, 1)
  {
    hide Accrued, AfterBorrow, UserAfterBorrow, VariableLender, Reserve.Valid;
    VariableLenderReady(config);
    BorrowMovesBothAlikeIff(config, VariableLender(), VariableBorrower(1), 1, 0);
  }

  lemma SettleKeepsDebts(config: Configuration, core: Reserve)
    requires config.Valid() && Settleable(config, core)
    ensures var n := Settle(config, core);
            n == core.(liquidityRate := n.liquidityRate, stableBorrowRate := n.stableBorrowRate,
                       variableBorrowRate := n.variableBorrowRate, borrowUsageRatio := n.borrowUsageRatio,
                       supplyUsageRatio := n.supplyUsageRatio)
  {
    hide UsageRatio, ExpectedInterestRates;
  }

  /** What is borrowed leaves the liquidity and enters the debt of the chosen kind, the stable kind to
      the unit. */
  lemma BorrowMovesCashIntoDebt(config: Configuration, r: Reserve, amount: int, mode: RateMode, now: int)
    requires Ready(config, r, now) && 0 <= amount <= r.availableLiquidity
    ensures var s := Accrued(r, now);
            var next := AfterBorrow(config, r, amount, mode, now, now);
            && next.availableLiquidity == r.availableLiquidity - amount && next.unbacked == r.unbacked
            && (mode.Stable? ==> next.totalStableDebt == s.totalStableDebt + amount
                                 && next.totalVariableDebt == s.totalVariableDebt)
            && (mode.Variable? ==> next.totalStableDebt == s.totalStableDebt
                                   && 2 * RAY * Abs(next.totalVariableDebt - (s.totalVariableDebt + amount))
                                      <= next.variableBorrowIndex + 2 * RAY)
  {
    hide RayMul, RayDiv, Accrued, UsageRatio, Settle, AfterBorrow, AverageStableRate;
    BorrowIsCoreThenSettle(config, r, amount, mode, now);
    AccrualFrame(r, now);
    var s := UpdateLiquidityAndUsageRatios(Accrued(r, now), 0, amount).(lastUpdateTimestamp := now);
    SettleKeepsDebts(config, BorrowedCore(r, s, amount, mode));
    if mode.Variable? {
      ScaledStep(r.scaledVariableDebt, amount, s.variableBorrowIndex);
    }
  }

  /** A stable borrower's new rate carries the weight of the old debt at the old rate and of the amount at
      the rate on offer, hence lies between the two, whenever it is seen. */
  lemma UserStableRateIsBetween(r: Reserve, next: Reserve, u: User, amount: int, now: int, seen: int)
    requires next.variableBorrowIndex != 0 && amount > 0 && u.principalStableDebt >= 0
    requires u.stableBorrowRate >= 0 && r.stableBorrowRate >= 0 && u.stableRateLastUpdated <= now
    ensures UserStableDebt(u, now) >= u.principalStableDebt
    ensures var n := UserAfterBorrow(r, next, u, amount, Stable, now, seen);
            && n.principalStableDebt == UserStableDebt(u, now) + amount
            && (seen == now ==> n.currentStableDebt == n.principalStableDebt)
            && n.scaledVariableDebt == u.scaledVariableDebt && n.stableRateLastUpdated == now
            && n.walletBalance == u.walletBalance + amount
            && Weighs(n.stableBorrowRate, n.principalStableDebt,
                      u.stableBorrowRate * UserStableDebt(u, now) + r.stableBorrowRate * amount)
            && (u.stableBorrowRate <= n.stableBorrowRate <= r.stableBorrowRate
                || r.stableBorrowRate <= n.stableBorrowRate <= u.stableBorrowRate)
  {
    hide RayMul, CompoundedInterest, AverageStableRate, UserStableRate, VariableDebtBalance, RSTokenBalance;
    StableDebtGrows(u.principalStableDebt, u.stableBorrowRate, u.stableRateLastUpdated, now, now);
    var debt := UserStableDebt(u, now);
    UserRateIsAverage(debt, u.stableBorrowRate, amount, r.stableBorrowRate);
    AverageIsBetween(u.stableBorrowRate, debt, amount, r.stableBorrowRate);
    AddBracket(u.stableBorrowRate, debt, amount, r.stableBorrowRate);
  }

  /** Seen at its own transaction, a variable borrower's debt is the scaled debt at the index left. */
  lemma VariableDebtSeenAtOnce(r: Reserve, next: Reserve, u: User, amount: int, now: int)
    requires next.variableBorrowIndex > 0 && next.lastUpdateTimestamp == now
    ensures var n := UserAfterBorrow(r, next, u, amount, Variable, now, now);
            && n.currentVariableDebt == RayMul(n.scaledVariableDebt, next.variableBorrowIndex)
            && n.walletBalance == u.walletBalance + amount
            && n.principalStableDebt == u.principalStableDebt && n.stableBorrowRate == u.stableBorrowRate
            && n.stableRateLastUpdated == u.stableRateLastUpdated && n.currentStableDebt == UserStableDebt(n, now)
  {
    AtItsOwnTransaction(0, next.variableBorrowRate, next.variableBorrowIndex, now);
    hide RayMul, RayDiv, CompoundedInterest, StableDebtBalance;
  }

  /** Repaying everything of one kind leaves nothing of it, at whatever time it is seen. */
  lemma FullRepayClearsUser(r: Reserve, next: Reserve, u: User, mode: RateMode, ownDebt: bool, now: int, seen: int)
    requires r.Valid() && r.lastUpdateTimestamp <= seen && Borrower(r, u)
    requires next.variableBorrowIndex == Accrued(r, seen).variableBorrowIndex
    ensures next.variableBorrowIndex > 0
    ensures var n := UserAfterRepay(r, next, u, MAX_UINT_AMOUNT, mode, ownDebt, now, seen);
            && (mode.Stable? ==> n.principalStableDebt == 0 && n.currentStableDebt == 0
                                 && n.stableBorrowRate == 0 && n.stableRateLastUpdated == 0)
            && (mode.Variable? ==> n.scaledVariableDebt == 0 && n.currentVariableDebt == 0)
  {
    hide RayMul, RayDiv, Accrued, UsageRatio, UserStableDebt, VariableDebtBalance, RSTokenBalance;
    SharedIndexes(r, u, seen);
    RebaseThenScale(u.scaledVariableDebt, next.variableBorrowIndex);
    RayMulUnit(next.variableBorrowIndex);
  }

  // ---------------------------------------------------------------------------
  // Swapping rate mode conserves debt
  // ---------------------------------------------------------------------------

  /** The reserve's two debts together are what they were, up to rounding, and no liquidity moves. A
      swap to the stable rate removes exactly the user's scaled debt. */
  lemma ReserveSwapConservesDebt(config: Configuration, r: Reserve, u: User, mode: RateMode, now: int)
    requires Ready(config, r, now) && SwapDefined(config, r, u, mode, now) && Borrower(r, u)
    ensures var s := Accrued(r, now);
            var next := AfterSwapRateMode(config, r, u, mode, now);
            && next.availableLiquidity == r.availableLiquidity && next.totalLiquidity == r.totalLiquidity
            && (mode.Stable? ==> 2 * RAY * Abs(next.TotalDebt() - s.TotalDebt()) <= next.variableBorrowIndex + 2 * RAY)
            && (mode.Variable? ==> Abs(next.TotalDebt() - s.TotalDebt()) <= 1
                                   && next.scaledVariableDebt == r.scaledVariableDebt - u.scaledVariableDebt)
  {
    hide RayMul, RayDiv, Accrued, UsageRatio, Settle, AverageStableRate, UserStableDebt, VariableDebtBalance;
    AccrualFrame(r, now);
    SharedIndexes(r, u, now);
    SwappedCoreSettleable(config, r, u, mode, now);
    var s := UpdateLiquidityAndUsageRatios(Accrued(r, now), 0, 0);
    SettleKeepsDebts(config, SwappedCore(r, s, u, mode, now));
    var index := s.variableBorrowIndex;
    if mode.Stable? {
      ScaledStep(r.scaledVariableDebt, UserStableDebt(u, now), index);
    } else {
      RebaseThenScale(u.scaledVariableDebt, index);
      RayMulSplit(r.scaledVariableDebt - u.scaledVariableDebt, u.scaledVariableDebt, index);
    }
  }

  /** The user's two debts together are what they had accrued to: up to rounding after a swap to the
      variable rate; after a swap to the stable rate they lack what the stored stable debt lacked. */
  lemma UserSwapConservesDebt(config: Configuration, r: Reserve, u: User, mode: RateMode, now: int)
    requires Ready(config, r, now) && SwapDefined(config, r, u, mode, now) && Borrower(r, u)
    requires mode.Variable? ==> UserStableDebt(u, now) + VariableDebtBalance(r, u, now) != 0
    ensures var owed := UserStableDebt(u, now) + VariableDebtBalance(r, u, now);
            var next := AfterSwapRateMode(config, r, u, mode, now);
            && next.variableBorrowIndex > 0
            && var n := UserAfterSwapRateMode(r, next, u, mode, now);
            && Borrower(next, n)
            && n.walletBalance == u.walletBalance
            && (mode.Stable? ==>
                  n.currentStableDebt == 0 && n.principalStableDebt == 0 && n.stableBorrowRate == 0 && n.stableRateLastUpdated == 0)
            && (mode.Stable? ==>
                  2 * RAY * Abs(n.currentStableDebt + n.currentVariableDebt - owed) <= next.variableBorrowIndex + 2 * RAY)
            && (mode.Variable? ==>
                  n.currentVariableDebt == 0 && n.scaledVariableDebt == 0
                  && n.principalStableDebt == n.currentStableDebt && n.stableRateLastUpdated == now)
            && (mode.Variable? ==>
                  n.currentStableDebt + n.currentVariableDebt == owed - (UserStableDebt(u, now) - u.currentStableDebt))
  {
    hide RayMul, RayDiv, Accrued, UsageRatio, Settle, AverageStableRate, UserStableRate, UserStableDebt,
      VariableDebtBalance, RSTokenBalance;
    AccrualFrame(r, now);
    SharedIndexes(r, u, now);
    SwappedCoreSettleable(config, r, u, mode, now);
    var s := UpdateLiquidityAndUsageRatios(Accrued(r, now), 0, 0);
    SettleKeepsDebts(config, SwappedCore(r, s, u, mode, now));
    if mode.Stable? {
      ScaledStep(u.scaledVariableDebt, UserStableDebt(u, now), s.variableBorrowIndex);
    }
  }

  /** After a swap to the stable rate the user's rate carries the weight of the stable debt at the old rate
      and of the variable debt at the rate on offer. */
  lemma SwappedUserRate(r: Reserve, next: Reserve, u: User, now: int)
    requires r.Valid() && r.lastUpdateTimestamp <= now && Borrower(r, u) && next.variableBorrowIndex != 0
    requires u.principalStableDebt >= 0 && u.stableBorrowRate >= 0 && u.stableRateLastUpdated <= now
    requires UserStableDebt(u, now) + VariableDebtBalance(r, u, now) != 0
    ensures var n, stable := UserAfterSwapRateMode(r, next, u, Variable, now), UserStableDebt(u, now);
            var variable := RayMul(u.scaledVariableDebt, Accrued(r, now).variableBorrowIndex);
            Weighs(n.stableBorrowRate, stable + variable, u.stableBorrowRate * stable + r.stableBorrowRate * variable)
  {
    hide RayMul, Accrued, UsageRatio, StableDebtBalance, VariableDebtBalance, AverageStableRate, UserStableRate, Weighs,
      RSTokenBalance;
    SharedIndexes(r, u, now);
    StableDebtNotBelowPrincipal(u.principalStableDebt, u.stableBorrowRate, u.stableRateLastUpdated, now);
    RayMulBounds(u.scaledVariableDebt, Accrued(r, now).variableBorrowIndex);
    var stable, variable := UserStableDebt(u, now), VariableDebtBalance(r, u, now);
    UserRateIsAverage(stable, u.stableBorrowRate, variable, r.stableBorrowRate);
    AddBracket(u.stableBorrowRate, stable, variable, r.stableBorrowRate);
  }

  // ---------------------------------------------------------------------------
  // A sole borrower owes what the reserve has lent
  // ---------------------------------------------------------------------------

  /** The user owes all of both kinds of debt, on the reserve's own terms. */
  predicate SoleBorrower(r: Reserve, u: User) {
    && u.scaledVariableDebt == r.scaledVariableDebt && u.principalStableDebt == r.principalStableDebt
    && u.stableBorrowRate == r.averageStableBorrowRate && u.stableRateLastUpdated == r.totalStableDebtLastUpdated
  }

  lemma SoleBorrowerOwesAll(r: Reserve, u: User, now: int)
    requires r.Valid() && r.lastUpdateTimestamp <= now && SoleBorrower(r, u)
    ensures UserStableDebt(u, now) == Accrued(r, now).totalStableDebt
    ensures VariableDebtBalance(r, u, now) == Accrued(r, now).totalVariableDebt
  {
    hide RayMul, Accrued, UsageRatio, VariableDebtBalance, StableDebtBalance, TotalStableDebtAt;
    AccrualFrame(r, now);
    SharedIndexes(r, u, now);
    StableFormsAgree(r.principalStableDebt, r.averageStableBorrowRate, r.totalStableDebtLastUpdated, now);
  }

  /** A user with stable debt, stored as it had accrued to some earlier time. */
  predicate StoredAt(u: User, t0: int) {
    && u.principalStableDebt >= 0 && u.stableBorrowRate >= 0 && u.stableRateLastUpdated <= t0
    && (u.stableRateLastUpdated == 0 ==> u.principalStableDebt == 0)
    && u.currentStableDebt == UserStableDebt(u, t0)
  }

  /** Simple interest on the user's stable principal from one time to another, in parts of a ray. */
  function SimpleStableInterest(u: User, t0: int, now: int): int {
    u.principalStableDebt * (LinearInterest(u.stableBorrowRate, now, u.stableRateLastUpdated)
                             - LinearInterest(u.stableBorrowRate, t0, u.stableRateLastUpdated))
  }

  /** Stable debt gains at least simple interest on its principal, up to a unit. */
  lemma StableDebtGains(u: User, t0: int, now: int)
    requires StoredAt(u, t0) && t0 <= now
    ensures var gained := UserStableDebt(u, now) - UserStableDebt(u, t0);
            && gained >= 0
            && (t0 == now || u.stableBorrowRate == 0 ==> gained == 0)
            && RAY * (gained + 1) > SimpleStableInterest(u, t0, now)
  {
    assert u.stableBorrowRate == 0 ==> UserStableDebt(u, now) == UserStableDebt(u, t0);
    var p, rate, since := u.principalStableDebt, u.stableBorrowRate, u.stableRateLastUpdated;
    StableFormsAgree(p, rate, since, t0);
    StableFormsAgree(p, rate, since, now);
    hide RayMul, CompoundedInterest, LinearInterest, StableDebtBalance;
    assert SimpleStableInterest(u, t0, now) == p * (LinearInterest(rate, now, since) - LinearInterest(rate, t0, since));
    StableDebtGrows(p, rate, since, t0, now);
    StableDebtGrows(p, rate, since, now, now);
    CompoundedAtLeastLinear(rate, t0, since);
    CompoundedAtLeastLinear(rate, now, since);
    CompoundedIsLinearAndMore(rate, t0, since);
    CompoundedIsLinearAndMore(rate, now, since);
    InterestOnInterestGrows(rate, t0 - since, now - since);
    hide InterestOnInterest;
    var c0, c1 := CompoundedInterest(rate, t0, since), CompoundedInterest(rate, now, since);
    RayMulBounds(p, c0);
    RayMulBounds(p, c1);
    GainFromFactors(p, c0, c1, LinearInterest(rate, t0, since), LinearInterest(rate, now, since), RayMul(p, c0), RayMul(p, c1));
  }

  lemma GainFromFactors(p: int, c0: int, c1: int, l0: int, l1: int, before: int, after: int)
    requires p >= 0 && l1 - l0 <= c1 - c0
    requires 2 * RAY * before <= 2 * (p * c0) + RAY && 2 * (p * c1) + RAY < 2 * RAY * after + 2 * RAY
    ensures 2 * RAY * (after - before) + 2 * RAY > 2 * (p * (l1 - l0))
  {
    MulMono(l1 - l0, c1 - c0, p);
    assert p * (c1 - c0) == p * c1 - p * c0;
  }

  /** A swap to the stable rate forgives the user the stable interest since the debt was last stored: at
      least simple interest on the principal, and nothing if it was stored just now or bears no rate. */
  lemma SwapToStableForgivesInterest(config: Configuration, r: Reserve, u: User, t0: int, now: int)
    requires Ready(config, r, now) && SwapDefined(config, r, u, Variable, now) && Borrower(r, u)
    requires StoredAt(u, t0) && t0 <= now
    requires UserStableDebt(u, now) + VariableDebtBalance(r, u, now) != 0
    ensures var owed := UserStableDebt(u, now) + VariableDebtBalance(r, u, now);
            var next := AfterSwapRateMode(config, r, u, Variable, now);
            && next.variableBorrowIndex > 0
            && var n := UserAfterSwapRateMode(r, next, u, Variable, now);
            var forgiven := owed - (n.currentStableDebt + n.currentVariableDebt);
            && forgiven == UserStableDebt(u, now) - UserStableDebt(u, t0) && forgiven >= 0
            && (t0 == now || u.stableBorrowRate == 0 ==> forgiven == 0)
            && RAY * (forgiven + 1) > SimpleStableInterest(u, t0, now)
  {
    StableDebtGains(u, t0, now);
    hide RayMul, RayDiv, Accrued, UsageRatio, Settle, UserStableDebt, VariableDebtBalance, SimpleStableInterest, SwapDefined,
      AfterSwapRateMode, UserAfterSwapRateMode, Reserve.Valid;
    UserSwapConservesDebt(config, r, u, Variable, now);
  }

  /** A stable borrower of a hundred units at a hundred percent a year, just stored. */
  function StaleBorrower(): User {
    User(0, 0, 100, 0, 100, 0, 0, RAY, 1, false, 0)
  }

  /** A swap to the stable rate after which a user owes less than before, by at least some amount. */
  ghost predicate Forgives(config: Configuration, r: Reserve, u: User, now: int, amount: int) {
    && Ready(config, r, now) && SwapDefined(config, r, u, Variable, now) && Borrower(r, u)
    && var owed := UserStableDebt(u, now) + VariableDebtBalance(r, u, now);
    && owed != 0
    && var next := AfterSwapRateMode(config, r, u, Variable, now);
    && next.variableBorrowIndex > 0
    && var n := UserAfterSwapRateMode(r, next, u, Variable, now);
    n.currentStableDebt + n.currentVariableDebt <= owed - amount
  }

  lemma SimpleInterestForgiven(config: Configuration, r: Reserve, u: User, t0: int, now: int, amount: int)
    requires Ready(config, r, now) && StoredAt(u, t0) && t0 <= now && u.scaledVariableDebt == 0
    requires UserStableDebt(u, now) != 0 && SimpleStableInterest(u, t0, now) == amount * RAY
    ensures Forgives(config, r, u, now, amount)
  {
    hide RayMul, Settle, UserStableDebt, VariableDebtBalance, SimpleStableInterest, SwapDefined, AfterSwapRateMode,
      UserAfterSwapRateMode, StoredAt, UsageRatio;
    NothingOwedVariably(config, r, u, now);
    SwapToStableForgivesInterest(config, r, u, t0, now);
  }

  /** The loss is real: a swap a year later forgives a whole year's interest. */
  lemma SwapToStableCanForgive(config: Configuration)
    requires config.Valid()
    ensures Forgives(config, Runs.FreshReserve(0, 0), StaleBorrower(), 1 + ONE_YEAR, 100)
  {
    hide Forgives, StoredAt, UserStableDebt, SimpleStableInterest, Ready, Runs.FreshReserve, StaleBorrower;
    FreshReserveReady(config, 0, 1 + ONE_YEAR);
    StaleBorrowerOwes();
    SimpleInterestForgiven(config, Runs.FreshReserve(0, 0), StaleBorrower(), 1, 1 + ONE_YEAR, 100);
  }

  lemma FreshReserveReady(config: Configuration, marketStableRate: int, now: int)
    requires config.Valid() && marketStableRate >= 0 && now >= 0
    ensures Ready(config, Runs.FreshReserve(0, marketStableRate), now)
  {
    Runs.FreshReserveValid(0, marketStableRate);
  }

  lemma StaleBorrowerOwes()
    ensures StoredAt(StaleBorrower(), 1) && UserStableDebt(StaleBorrower(), 1 + ONE_YEAR) >= 199
    ensures SimpleStableInterest(StaleBorrower(), 1, 1 + ONE_YEAR) == 100 * RAY
    ensures StaleBorrower().scaledVariableDebt == 0
  {
    var u, now := StaleBorrower(), 1 + ONE_YEAR;
    hide CompoundedInterest, RayMul;
    assert StoredAt(u, 1);
    StableDebtGains(u, 1, now);
  }

  lemma NothingOwedVariably(config: Configuration, r: Reserve, u: User, now: int)
    requires r.Valid() && r.lastUpdateTimestamp <= now && u.scaledVariableDebt == 0
    ensures SwapDefined(config, r, u, Variable, now) && VariableDebtBalance(r, u, now) == 0
  {
    hide RayMul, RayDiv, Accrued, UsageRatio, VariableDebtBalance;
    SharedIndexes(r, u, now);
    RayMulUnit(Accrued(r, now).variableBorrowIndex);
    RayDivAtMostOne(0, Accrued(r, now).variableBorrowIndex);
  }
}
