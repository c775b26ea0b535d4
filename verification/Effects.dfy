/** What each action leaves in a reserve, amount by amount: cash, the two debts and their average rate,
    and the debts as they are seen later. */
module Effects {
  import opened WadRayMath
  import opened Interest
  import opened Rates
  import opened StableRate
  import opened Accrual
  import opened Transitions
  import opened Runs
  import Users

  // ---------------------------------------------------------------------------
  // What an action leaves alone
  // ---------------------------------------------------------------------------

  predicate SameStableDebt(s: Reserve, n: Reserve) {
    n.totalStableDebt == s.totalStableDebt && n.principalStableDebt == s.principalStableDebt
    && n.averageStableBorrowRate == s.averageStableBorrowRate
  }

  predicate SameVariableDebt(s: Reserve, n: Reserve) {
    n.totalVariableDebt == s.totalVariableDebt && n.scaledVariableDebt == s.scaledVariableDebt
  }

  /** Nothing but the suppliers' income and fees moves what suppliers and treasury hold. */
  predicate SameClaims(s: Reserve, n: Reserve) {
    n.liquidityIndex == s.liquidityIndex && n.accruedToTreasuryScaled == s.accruedToTreasuryScaled
  }

  /** Cash moved; what was bridged in did not. */
  predicate CashMoved(r: Reserve, n: Reserve, added: int) {
    n.availableLiquidity == r.availableLiquidity + added && n.unbacked == r.unbacked && n.totalLiquidity == r.totalLiquidity + added
  }

  // ---------------------------------------------------------------------------
  // Supplying and withdrawing
  // ---------------------------------------------------------------------------

  /** A deposit adds cash, and touches neither debts nor claims beyond their accrual. */
  lemma DepositAddsCash(config: Configuration, r: Reserve, amount: int, now: int)
    requires Ready(config, r, now) && amount >= 0
    ensures var s, n := Accrued(r, now), AfterDeposit(config, r, amount, now);
            CashMoved(r, n, amount) && SameStableDebt(s, n) && SameVariableDebt(s, n) && SameClaims(s, n)
  {
    hide RayMul, Accrued, UsageRatio, ExpectedInterestRates;
    AccrualFrame(r, now);
  }

  /** A withdrawal takes the amount named, or the user's whole balance when everything is asked for. */
  lemma WithdrawTakesCash(config: Configuration, r: Reserve, u: User, amount: int, now: int)
    requires Ready(config, r, now) && 0 <= WithdrawnAmount(r, u, amount, now) <= r.availableLiquidity
    ensures var s, n := Accrued(r, now), AfterWithdraw(config, r, u, amount, now);
            && CashMoved(r, n, if amount == MAX_UINT_AMOUNT then -RayMul(u.scaledRSTokenBalance, n.liquidityIndex) else -amount)
            && SameStableDebt(s, n) && SameVariableDebt(s, n) && SameClaims(s, n)
  {
    hide RayMul, Accrued, UsageRatio, ExpectedInterestRates, RSTokenBalance;
    AccrualFrame(r, now);
    Users.SharedIndexes(r, u, now);
  }

  // ---------------------------------------------------------------------------
  // Borrowing
  // ---------------------------------------------------------------------------

  /** A stable borrow takes cash, adds the amount to the stable debt as it had accrued, and its weight at
      the rate on offer to that debt's weight. */
  lemma StableBorrowAveragesIn(config: Configuration, r: Reserve, amount: int, now: int)
    requires Ready(config, r, now) && 0 <= amount <= r.availableLiquidity
    ensures var s, n := Accrued(r, now), AfterBorrow(config, r, amount, Stable, now, now);
            && CashMoved(r, n, -amount) && SameVariableDebt(s, n) && SameClaims(s, n)
            && n.principalStableDebt == n.totalStableDebt == s.totalStableDebt + amount
            && (n.totalStableDebt > 0 ==>
                  Weighs(n.averageStableBorrowRate, n.totalStableDebt,
                         r.averageStableBorrowRate * s.totalStableDebt + r.stableBorrowRate * amount))
  {
    hide RayMul, RayDiv, Accrued, UsageRatio, Settle, AfterBorrow, AverageStableRate, Weighs;
    BorrowIsCoreThenSettle(config, r, amount, Stable, now);
    AccrualFrame(r, now);
    var s := UpdateLiquidityAndUsageRatios(Accrued(r, now), 0, amount).(lastUpdateTimestamp := now);
    Users.SettleKeepsDebts(config, BorrowedCore(r, s, amount, Stable));
    if s.totalStableDebt + amount > 0 {
      AddBracket(r.averageStableBorrowRate, s.totalStableDebt, amount, r.stableBorrowRate);
    }
  }

  /** A variable borrow takes cash, leaves the stable debt, and adds the amount nearest in scaled debt. */
  lemma VariableBorrowScalesIn(config: Configuration, r: Reserve, amount: int, now: int)
    requires Ready(config, r, now) && 0 <= amount <= r.availableLiquidity
    ensures var s, n := Accrued(r, now), AfterBorrow(config, r, amount, Variable, now, now);
            && CashMoved(r, n, -amount) && SameStableDebt(s, n) && SameClaims(s, n)
            && 2 * Abs(n.variableBorrowIndex * (n.scaledVariableDebt - r.scaledVariableDebt) - RAY * amount)
               <= n.variableBorrowIndex
  {
    hide RayMul, RayDiv, Accrued, UsageRatio, Settle, AfterBorrow, AverageStableRate;
    BorrowIsCoreThenSettle(config, r, amount, Variable, now);
    AccrualFrame(r, now);
    var s := UpdateLiquidityAndUsageRatios(Accrued(r, now), 0, amount).(lastUpdateTimestamp := now);
    Users.SettleKeepsDebts(config, BorrowedCore(r, s, amount, Variable));
    RayDivBounds(amount, s.variableBorrowIndex);
  }

  /** A borrow seen later is the borrow, accrued to that moment: the two debts are those an accrual of the
      reserve it left gives, the ratios are theirs, and all else is as it was left. */
  lemma BorrowSeenLater(config: Configuration, r: Reserve, amount: int, mode: RateMode, now: int, seen: int)
    requires Ready(config, r, now) && 0 <= amount <= r.availableLiquidity && 0 < now <= seen
    ensures var left := Committed(AfterBorrow(config, r, amount, mode, now, now), now, mode.Stable?);
            var late := AfterBorrow(config, r, amount, mode, now, seen);
            && left.Valid()
            && var s := Accrued(left, seen);
            && late.totalStableDebt == s.totalStableDebt && late.totalVariableDebt == s.totalVariableDebt
            && late.borrowUsageRatio == UsageRatio(s.TotalDebt(), left.availableLiquidity)
            && late.supplyUsageRatio == UsageRatio(s.TotalDebt(), left.totalLiquidity)
            && late == left.(totalStableDebt := late.totalStableDebt, totalVariableDebt := late.totalVariableDebt,
                             borrowUsageRatio := late.borrowUsageRatio, supplyUsageRatio := late.supplyUsageRatio,
                             totalStableDebtLastUpdated := r.totalStableDebtLastUpdated)
  {
    hide RayMul, RayDiv, UsageRatio, Accrued, AfterBorrow, Reserve.Valid, ReserveNormalizedDebt, TotalStableDebtAt,
      VariableBorrowIndexAt;
    BorrowValid(config, r, amount, mode, now);
    var left := Committed(AfterBorrow(config, r, amount, mode, now, now), now, mode.Stable?);
    AccrualFrame(left, seen);
    SeenDebts(config, r, amount, mode, now, seen);
    ScaledDebtSeen(left, seen);
  }

  /** The debts a borrow shows later, in terms of the record it left. */
  predicate SeenAs(n: Reserve, late: Reserve, stamp: int, now: int, seen: int) {
    && late.totalStableDebt == TotalStableDebtAt(n.principalStableDebt, n.averageStableBorrowRate, stamp, seen)
    && late.totalVariableDebt ==
       RayMul(n.scaledVariableDebt, ReserveNormalizedDebt(n.variableBorrowRate, n.variableBorrowIndex, now, seen))
    && n.availableLiquidity >= 0 && n.totalLiquidity >= 0
    && (late.TotalDebt() >= 0 ==>
          late.borrowUsageRatio == UsageRatio(late.TotalDebt(), n.availableLiquidity)
          && late.supplyUsageRatio == UsageRatio(late.TotalDebt(), n.totalLiquidity))
    && late == n.(totalStableDebt := late.totalStableDebt, totalVariableDebt := late.totalVariableDebt,
                  borrowUsageRatio := late.borrowUsageRatio, supplyUsageRatio := late.supplyUsageRatio)
  }

  lemma StableBorrowSeen(config: Configuration, r: Reserve, s: Reserve, amount: int, now: int, seen: int)
    requires Ready(config, r, now) && amount >= 0 && now <= seen && AccruedFrom(r, s, now)
    ensures SeenAs(StableBorrow(config, r, s, amount, now, now), StableBorrow(config, r, s, amount, now, seen), now, now, seen)
    ensures StableBorrow(config, r, s, amount, now, now).totalStableDebtLastUpdated == s.totalStableDebtLastUpdated
    ensures StableBorrow(config, r, s, amount, now, now).lastUpdateTimestamp == s.lastUpdateTimestamp
  {
    hide RayMul, RayDiv, UsageRatio, ExpectedInterestRates, AverageStableRate, ReserveNormalizedDebt, TotalStableDebtAt;
  }

  lemma VariableBorrowSeen(config: Configuration, r: Reserve, s: Reserve, amount: int, now: int, seen: int)
    requires Ready(config, r, now) && amount >= 0 && now <= seen && AccruedFrom(r, s, now)
    ensures SeenAs(VariableBorrow(config, r, s, amount, now, now), VariableBorrow(config, r, s, amount, now, seen),
                   r.totalStableDebtLastUpdated, now, seen)
    ensures VariableBorrow(config, r, s, amount, now, now).totalStableDebtLastUpdated == s.totalStableDebtLastUpdated
    ensures VariableBorrow(config, r, s, amount, now, now).lastUpdateTimestamp == s.lastUpdateTimestamp
  {
    hide RayMul, RayDiv, UsageRatio, ExpectedInterestRates, ReserveNormalizedDebt, TotalStableDebtAt, StableDebtBalance;
  }

  lemma SeenDebts(config: Configuration, r: Reserve, amount: int, mode: RateMode, now: int, seen: int)
    requires Ready(config, r, now) && 0 <= amount <= r.availableLiquidity && now <= seen
    ensures var n := AfterBorrow(config, r, amount, mode, now, now);
            && SeenAs(n, AfterBorrow(config, r, amount, mode, now, seen),
                      if mode.Stable? then now else r.totalStableDebtLastUpdated, now, seen)
            && n.lastUpdateTimestamp == now && n.totalStableDebtLastUpdated == r.totalStableDebtLastUpdated
  {
    hide RayMul, UsageRatio, Accrued, StableBorrow, VariableBorrow, SeenAs, TotalStableDebtAt;
    AccrualFrame(r, now);
    var s := UpdateLiquidityAndUsageRatios(Accrued(r, now), 0, amount).(lastUpdateTimestamp := now);
    if mode.Stable? {
      StableBorrowSeen(config, r, s, amount, now, seen);
    } else {
      VariableBorrowSeen(config, r, s, amount, now, seen);
    }
  }

  /** So is the borrower's record: each balance is the one the reserve left shows by then. */
  lemma BorrowerSeenLater(config: Configuration, r: Reserve, u: User, amount: int, mode: RateMode, now: int, seen: int)
    requires Ready(config, r, now) && 0 <= amount <= r.availableLiquidity && 0 < now <= seen && Users.Borrower(r, u)
    requires mode.Stable? ==> UserStableDebt(u, now) + amount != 0
    ensures var left := Committed(AfterBorrow(config, r, amount, mode, now, now), now, mode.Stable?);
            var late := AfterBorrow(config, r, amount, mode, now, seen);
            && left.Valid() && late.variableBorrowIndex != 0
            && var n, s := Users.UserAfterBorrow(r, late, u, amount, mode, now, seen), Accrued(left, seen);
            && n.currentRSTokenBalance == RayMul(u.scaledRSTokenBalance, s.liquidityIndex)
            && n.currentVariableDebt == RayMul(n.scaledVariableDebt, s.variableBorrowIndex)
            && n.currentStableDebt == UserStableDebt(n, seen)
  {
    hide RayMul, RayDiv, UsageRatio, Accrued, AfterBorrow, Reserve.Valid, StableDebtBalance, ReserveNormalizedDebt,
      LinearInterest, UserStableRate;
    BorrowSeenLater(config, r, amount, mode, now, seen);
    var left := Committed(AfterBorrow(config, r, amount, mode, now, now), now, mode.Stable?);
    var late := AfterBorrow(config, r, amount, mode, now, seen);
    BorrowKeepsBorrower(config, r, u, amount, mode, now);
    var n := Users.UserAfterBorrow(r, late, u, amount, mode, now, seen);
    Users.SharedIndexes(left, n, seen);
  }

  lemma BorrowKeepsBorrower(config: Configuration, r: Reserve, u: User, amount: int, mode: RateMode, now: int)
    requires Ready(config, r, now) && 0 <= amount <= r.availableLiquidity && Users.Borrower(r, u)
    ensures var n := AfterBorrow(config, r, amount, mode, now, now);
            && n.variableBorrowIndex > 0 && 0 <= u.scaledVariableDebt <= n.scaledVariableDebt
            && (mode.Variable? ==>
                  0 <= r.scaledVariableDebt + RayDiv(amount, n.variableBorrowIndex) == n.scaledVariableDebt)
  {
    hide RayMul, RayDiv, Accrued, UsageRatio, Settle, AfterBorrow, AverageStableRate;
    BorrowIsCoreThenSettle(config, r, amount, mode, now);
    AccrualFrame(r, now);
    var s := UpdateLiquidityAndUsageRatios(Accrued(r, now), 0, amount).(lastUpdateTimestamp := now);
    Users.SettleKeepsDebts(config, BorrowedCore(r, s, amount, mode));
    RayDivBounds(amount, s.variableBorrowIndex);
  }

  lemma ScaledDebtSeen(n: Reserve, seen: int)
    requires n.Valid() && n.lastUpdateTimestamp <= seen
    ensures Accrued(n, seen).totalVariableDebt ==
            RayMul(n.scaledVariableDebt,
                   ReserveNormalizedDebt(n.variableBorrowRate, n.variableBorrowIndex, n.lastUpdateTimestamp, seen))
  {
    hide RayMul, UsageRatio, Accrued, ReserveNormalizedDebt, VariableBorrowIndexAt;
    AccrualFrame(n, seen);
    DebtFormsAgree(n, User(0, 0, 0, 0, 0, n.scaledVariableDebt, 0, 0, 0, false, 0), seen);
  }

  // ---------------------------------------------------------------------------
  // Repaying
  // ---------------------------------------------------------------------------

  /** What a repayment pays: the amount named, or when everything is asked for, of either sign, what is owed. */
  function Paid(r: Reserve, u: User, amount: int, mode: RateMode, now: int): int
    requires r.Valid() && r.lastUpdateTimestamp <= now
  {
    if amount != MAX_UINT_AMOUNT && amount != -MAX_UINT_AMOUNT then amount
    else if mode.Stable? then UserStableDebt(u, now)
    else RayMul(u.scaledVariableDebt, Accrued(r, now).variableBorrowIndex)
  }

  lemma PaidIsRepaid(r: Reserve, u: User, amount: int, mode: RateMode, now: int)
    requires r.Valid() && r.lastUpdateTimestamp <= now && (mode.Variable? ==> Users.Borrower(r, u))
    ensures RepaidAmount(r, u, amount, mode, now) == Paid(r, u, amount, mode, now)
  {
    hide RayMul, UsageRatio, Accrued, VariableDebtBalance, UserStableDebt;
    Users.SharedIndexes(r, u, now);
  }

  /** A variable repayment adds cash, leaves the stable debt, and takes off the amount nearest in scaled debt. */
  lemma VariableRepayScalesOut(config: Configuration, r: Reserve, u: User, amount: int, now: int)
    requires Ready(config, r, now) && RepayDefined(r, u, amount, Variable, now) && Users.Borrower(r, u)
    ensures var s, n, paid := Accrued(r, now), AfterRepay(config, r, u, amount, Variable, now), Paid(r, u, amount, Variable, now);
            && CashMoved(r, n, paid) && SameStableDebt(s, n) && SameClaims(s, n)
            && 2 * Abs(n.variableBorrowIndex * (r.scaledVariableDebt - n.scaledVariableDebt) - RAY * paid)
               <= n.variableBorrowIndex
  {
    PaidIsRepaid(r, u, amount, Variable, now);
    hide RayMul, RayDiv, Accrued, UsageRatio, Settle, RepaidAmount, Paid;
    AccrualFrame(r, now);
    var paid := RepaidAmount(r, u, amount, Variable, now);
    var s := UpdateLiquidityAndUsageRatios(Accrued(r, now), paid, 0);
    RepaidCoreBalanced(s, u, paid, Variable);
    Users.SettleKeepsDebts(config, RepaidCore(s, u, paid, Variable).(lastUpdateTimestamp := now));
    RayDivBounds(paid, s.variableBorrowIndex);
  }

  /** The stable debt after an amount was taken off at a rate: nothing of it and no rate, or less of it and
      less weight, a weight that has fallen below zero counting as none. */
  predicate TakenOff(s: Reserve, n: Reserve, debt: int, rate: int) {
    var weight := s.averageStableBorrowRate * s.totalStableDebt - rate * debt;
    && n.principalStableDebt == n.totalStableDebt == s.totalStableDebt - debt
    && (debt == s.totalStableDebt ==> n.averageStableBorrowRate == 0)
    && (debt < s.totalStableDebt ==>
          if weight < 0 then n.averageStableBorrowRate == 0 else Weighs(n.averageStableBorrowRate, n.totalStableDebt, weight))
  }

  lemma RemovedAverage(s: Reserve, n: Reserve, debt: int, rate: int)
    requires s.averageStableBorrowRate >= 0 && rate >= 0 && 0 <= debt
    requires Removable(s.averageStableBorrowRate, s.totalStableDebt, debt, rate)
    requires n.principalStableDebt == n.totalStableDebt == s.totalStableDebt - debt
    requires n.averageStableBorrowRate == AverageStableRate(s.averageStableBorrowRate, s.totalStableDebt, -debt, rate)
    ensures TakenOff(s, n, debt, rate)
  {
    RemovalNonnegativeIff(s.averageStableBorrowRate, s.totalStableDebt, debt, rate);
    if debt < s.totalStableDebt {
      RemoveBracket(s.averageStableBorrowRate, s.totalStableDebt, debt, rate);
    }
    hide AverageStableRate, Weighs;
  }

  lemma RepaidStableCore(s: Reserve, u: User, paid: int)
    requires s.averageStableBorrowRate >= 0 && u.stableBorrowRate >= 0 && 0 <= paid && s.variableBorrowIndex > 0
    ensures var n := RepaidCore(s, u, paid, Stable);
            && n.availableLiquidity == s.availableLiquidity && n.unbacked == s.unbacked && n.totalLiquidity == s.totalLiquidity
            && SameVariableDebt(s, n) && SameClaims(s, n)
            && if Removable(s.averageStableBorrowRate, s.totalStableDebt, paid, u.stableBorrowRate)
               then TakenOff(s, n, paid, u.stableBorrowRate)
               else n.principalStableDebt == 0 && n.totalStableDebt == 0 && n.averageStableBorrowRate == 0
  {
    hide AverageStableRate, TakenOff;
    RemovalNonnegativeIff(s.averageStableBorrowRate, s.totalStableDebt, paid, u.stableBorrowRate);
    if Removable(s.averageStableBorrowRate, s.totalStableDebt, paid, u.stableBorrowRate) {
      RemovedAverage(s, RepaidCore(s, u, paid, Stable), paid, u.stableBorrowRate);
    }
  }

  /** A stable repayment adds cash, leaves the variable debt, and takes the amount and its weight at the
      user's rate off the stable debt; what does not fit erases the stable debt. */
  lemma StableRepayAveragesOut(config: Configuration, r: Reserve, u: User, amount: int, now: int)
    requires Ready(config, r, now) && RepayDefined(r, u, amount, Stable, now)
    requires 0 <= u.stableBorrowRate
    ensures var s, n, paid := Accrued(r, now), AfterRepay(config, r, u, amount, Stable, now), Paid(r, u, amount, Stable, now);
            && CashMoved(r, n, paid) && SameVariableDebt(s, n) && SameClaims(s, n)
            && (if Removable(s.averageStableBorrowRate, s.totalStableDebt, paid, u.stableBorrowRate)
                then TakenOff(s, n, paid, u.stableBorrowRate)
                else n.principalStableDebt == 0 && n.totalStableDebt == 0 && n.averageStableBorrowRate == 0)
  {
    PaidIsRepaid(r, u, amount, Stable, now);
    hide RayMul, RayDiv, Accrued, UsageRatio, Settle, RepaidAmount, Paid, RepaidCore;
    AccrualFrame(r, now);
    var paid := RepaidAmount(r, u, amount, Stable, now);
    var s := UpdateLiquidityAndUsageRatios(Accrued(r, now), paid, 0);
    RepaidCoreBalanced(s, u, paid, Stable);
    Users.SettleKeepsDebts(config, RepaidCore(s, u, paid, Stable).(lastUpdateTimestamp := now));
    RepaidStableCore(s, u, paid);
  }

  // ---------------------------------------------------------------------------
  // Swapping rate mode
  // ---------------------------------------------------------------------------

  /** A swap to the stable rate moves no cash, adds the user's variable debt to the stable debt as it had
      accrued, and gives it an average in which the debt weighs what it does at the rate on offer, on top of
      the total of the record before. */
  lemma SwapToStableAveragesIn(config: Configuration, r: Reserve, u: User, now: int)
    requires Ready(config, r, now) && SwapDefined(config, r, u, Variable, now) && Users.Borrower(r, u)
    ensures var s, n := Accrued(r, now), AfterSwapRateMode(config, r, u, Variable, now);
            var debt := RayMul(u.scaledVariableDebt, n.variableBorrowIndex);
            && CashMoved(r, n, 0) && SameClaims(s, n)
            && n.principalStableDebt == n.totalStableDebt == s.totalStableDebt + debt
            && n.scaledVariableDebt == r.scaledVariableDebt - u.scaledVariableDebt
            && (r.totalStableDebt + debt > 0 ==>
                  Weighs(n.averageStableBorrowRate, r.totalStableDebt + debt,
                         r.averageStableBorrowRate * r.totalStableDebt + r.stableBorrowRate * debt))
  {
    hide RayMul, RayDiv, Accrued, UsageRatio, Settle, AverageStableRate, UserStableDebt, VariableDebtBalance, Weighs;
    AccrualFrame(r, now);
    Users.SharedIndexes(r, u, now);
    SwappedCoreSettleable(config, r, u, Variable, now);
    var s := UpdateLiquidityAndUsageRatios(Accrued(r, now), 0, 0);
    Users.SettleKeepsDebts(config, SwappedCore(r, s, u, Variable, now));
    var debt := VariableDebtBalance(r, u, now);
    RebaseThenScale(u.scaledVariableDebt, s.variableBorrowIndex);
    if r.totalStableDebt + debt > 0 {
      AddBracket(r.averageStableBorrowRate, r.totalStableDebt, debt, r.stableBorrowRate);
    }
  }

  /** A swap out of stable debt moves no cash, scales the debt into the variable debt, and when it fits takes
      the debt and its weight at the user's rate off the stable debt. */
  lemma SwapToVariableAveragesOut(config: Configuration, r: Reserve, u: User, now: int)
    requires Ready(config, r, now) && SwapDefined(config, r, u, Stable, now) && 0 <= u.stableBorrowRate
    ensures var s, n, debt := Accrued(r, now), AfterSwapRateMode(config, r, u, Stable, now), UserStableDebt(u, now);
            && CashMoved(r, n, 0) && SameClaims(s, n)
            && 2 * Abs(n.variableBorrowIndex * (n.scaledVariableDebt - r.scaledVariableDebt) - RAY * debt)
               <= n.variableBorrowIndex
            && n.principalStableDebt == n.totalStableDebt == s.totalStableDebt - debt
            && (SwapFits(r, u, now) ==> TakenOff(s, n, debt, u.stableBorrowRate))
  {
    hide RayMul, RayDiv, Accrued, UsageRatio, Settle, AverageStableRate, UserStableDebt, VariableDebtBalance, TakenOff;
    AccrualFrame(r, now);
    SwappedCoreSettleable(config, r, u, Stable, now);
    var s := UpdateLiquidityAndUsageRatios(Accrued(r, now), 0, 0);
    Users.SettleKeepsDebts(config, SwappedCore(r, s, u, Stable, now));
    RayDivBounds(UserStableDebt(u, now), s.variableBorrowIndex);
    if SwapFits(r, u, now) {
      RemovedAverage(Accrued(r, now), AfterSwapRateMode(config, r, u, Stable, now), UserStableDebt(u, now), u.stableBorrowRate);
    }
  }
}
