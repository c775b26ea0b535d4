/** Runs of pool actions over one reserve, and what every run keeps. */
module Runs {
  import opened WadRayMath
  import opened Interest
  import opened Rates
  import opened StableRate
  import opened Accrual
  import opened Transitions

  datatype Action =
    | Deposit(amount: int)
    | Withdraw(user: User, amount: int)
    | MintUnbacked(amount: int)
    | BackUnbacked(scaledSupply: int, amount: int, fee: int, protocolFee: int)
    | Borrow(amount: int, mode: RateMode)
    | Repay(user: User, amount: int, mode: RateMode)
    | SwapRateMode(user: User, mode: RateMode)

  datatype Event = Event(action: Action, time: int)

  /** The action's amounts are ones the code gets through with: they are not negative, and what is taken
      out of liquidity or scaled debt is there. */
  predicate Enabled(config: Configuration, r: Reserve, e: Event)
    requires config.Valid() && r.Valid()
  {
    && 0 < e.time && r.lastUpdateTimestamp <= e.time
    && match e.action
       case Deposit(amount) => 0 <= amount
       case Withdraw(u, amount) => 0 <= WithdrawnAmount(r, u, amount, e.time) <= r.availableLiquidity
       case MintUnbacked(amount) => 0 <= amount
       case BackUnbacked(supply, amount, fee, protocolFee) => BackingDefined(r, supply, amount, fee, protocolFee, e.time)
       case Borrow(amount, _) => 0 <= amount <= r.availableLiquidity
       case Repay(u, amount, mode) =>
         RepayDefined(r, u, amount, mode, e.time) && (mode.Stable? ==> 0 <= u.stableBorrowRate)
       case SwapRateMode(u, mode) =>
         SwapDefined(config, r, u, mode, e.time) && (mode.Stable? ==> 0 <= u.stableBorrowRate)
  }

  predicate RewritesStablePrincipal(a: Action) {
    (a.Borrow? && a.mode.Stable?) || (a.Repay? && a.mode.Stable?) || a.SwapRateMode?
  }

  function After(config: Configuration, r: Reserve, e: Event): Reserve
    requires config.Valid() && r.Valid() && Enabled(config, r, e)
  {
    match e.action
    case Deposit(amount) => AfterDeposit(config, r, amount, e.time)
    case Withdraw(u, amount) => AfterWithdraw(config, r, u, amount, e.time)
    case MintUnbacked(amount) => AfterMintUnbacked(config, r, amount, e.time)
    case BackUnbacked(supply, amount, fee, protocolFee) =>
      AfterBackUnbacked(config, r, supply, amount, fee, protocolFee, e.time)
    case Borrow(amount, mode) => AfterBorrow(config, r, amount, mode, e.time, e.time)
    case Repay(u, amount, mode) => AfterRepay(config, r, u, amount, mode, e.time)
    case SwapRateMode(u, mode) => AfterSwapRateMode(config, r, u, mode, e.time)
  }

  function Step(config: Configuration, r: Reserve, e: Event): Reserve
    requires config.Valid() && r.Valid() && Enabled(config, r, e)
  {
    Committed(After(config, r, e), e.time, RewritesStablePrincipal(e.action))
  }

  /** Stable debt swapped to the variable rate is no more than the reserve's total, and is either all of
      it or weighs less at its own rate than the whole at the average. */
  predicate SwapFits(r: Reserve, u: User, now: int)
    requires r.Valid() && r.lastUpdateTimestamp <= now
  {
    var debt := UserStableDebt(u, now);
    var total := Accrued(r, now).totalStableDebt;
    Removable(r.averageStableBorrowRate, total, debt, u.stableBorrowRate)
  }

  /** The one thing an enabled action still has to get right for the invariant. */
  predicate Guard(r: Reserve, e: Event)
    requires r.Valid() && r.lastUpdateTimestamp <= e.time
  {
    e.action.SwapRateMode? && e.action.mode.Stable? ==> SwapFits(r, e.action.user, e.time)
  }

  // ---------------------------------------------------------------------------
  // One step
  // ---------------------------------------------------------------------------

  /** Once debts and liquidity are in place, settling and committing gives a valid state exactly when
      the committed core is sound. */
  lemma CommittedSettleValid(config: Configuration, core: Reserve, now: int, rewritten: bool)
    requires config.Valid() && Settleable(config, core)
    ensures Committed(Settle(config, core), now, rewritten).Valid() <==> Committed(core, now, rewritten).Sound()
    ensures Settle(config, core).liquidityIndex == core.liquidityIndex
    ensures Settle(config, core).variableBorrowIndex == core.variableBorrowIndex
  {
    hide RayMul, UsageRatio, ExpectedInterestRates;
    SettleValid(config, Committed(core, now, rewritten));
    assert Committed(Settle(config, core), now, rewritten) == Settle(config, Committed(core, now, rewritten));
  }

  lemma DepositValid(config: Configuration, r: Reserve, amount: int, now: int)
    requires Ready(config, r, now) && amount >= 0
    ensures Committed(AfterDeposit(config, r, amount, now), now, false).Valid()
  {
    hide RayMul, UsageRatio, Settle, UpdateState;
    AccrualFrame(r, now);
    CommittedSettleValid(config, UpdateLiquidityAndUsageRatios(Accrued(r, now), amount, 0), now, false);
  }

  lemma WithdrawValid(config: Configuration, r: Reserve, u: User, amount: int, now: int)
    requires Ready(config, r, now) && 0 <= WithdrawnAmount(r, u, amount, now) <= r.availableLiquidity
    ensures Committed(AfterWithdraw(config, r, u, amount, now), now, false).Valid()
  {
    hide RayMul, UsageRatio, Settle, UpdateState, WithdrawnAmount;
    AccrualFrame(r, now);
    CommittedSettleValid(config, UpdateLiquidityAndUsageRatios(Accrued(r, now), 0, WithdrawnAmount(r, u, amount, now)), now, false);
  }

  lemma MintUnbackedValid(config: Configuration, r: Reserve, amount: int, now: int)
    requires Ready(config, r, now) && amount >= 0
    ensures Committed(AfterMintUnbacked(config, r, amount, now), now, false).Valid()
  {
    hide RayMul, UsageRatio, Settle, UpdateState, AverageStableRate;
    AccrualFrame(r, now);
    AverageNonnegative(r.averageStableBorrowRate, r.totalStableDebt, 0, r.stableBorrowRate);
    var l := UpdateLiquidityAndUsageRatios(Accrued(r, now).(unbacked := r.unbacked + amount), 0, 0);
    CommittedSettleValid(config, l.(averageStableBorrowRate :=
      AverageStableRate(r.averageStableBorrowRate, r.totalStableDebt, 0, r.stableBorrowRate)), now, false);
  }

  lemma BackUnbackedValid(config: Configuration, r: Reserve, supply: int, amount: int, fee: int, protocolFee: int, now: int)
    requires Ready(config, r, now) && BackingDefined(r, supply, amount, fee, protocolFee, now)
    ensures Committed(AfterBackUnbacked(config, r, supply, amount, fee, protocolFee, now), now, false).Valid()
  {
    hide RayMul, UsageRatio, Settle, UpdateState, AverageStableRate, CumulateToLiquidityIndex, PercentMul, Claims;
    AccrualFrame(r, now);
    AverageNonnegative(r.averageStableBorrowRate, r.totalStableDebt, 0, r.stableBorrowRate);
    var backing := BackingAmount(r, amount);
    var s := PayFee(Accrued(r, now), supply, fee, protocolFee).(unbacked := r.unbacked - backing);
    var l := UpdateLiquidityAndUsageRatios(s, backing + fee, 0);
    CommittedSettleValid(config, l.(averageStableBorrowRate :=
      AverageStableRate(r.averageStableBorrowRate, r.totalStableDebt, 0, r.stableBorrowRate)), now, false);
  }

  lemma BorrowValid(config: Configuration, r: Reserve, amount: int, mode: RateMode, now: int)
    requires Ready(config, r, now) && 0 <= amount <= r.availableLiquidity && 0 < now
    ensures Committed(AfterBorrow(config, r, amount, mode, now, now), now, mode.Stable?).Valid()
  {
    hide RayMul, RayDiv, UsageRatio, Settle, UpdateState, AverageStableRate, AfterBorrow;
    AccrualFrame(r, now);
    BorrowIsCoreThenSettle(config, r, amount, mode, now);
    var s := UpdateLiquidityAndUsageRatios(Accrued(r, now), 0, amount).(lastUpdateTimestamp := now);
    AverageNonnegative(r.averageStableBorrowRate, s.totalStableDebt, amount, r.stableBorrowRate);
    RayDivBounds(amount, s.variableBorrowIndex);
    CommittedSettleValid(config, BorrowedCore(r, s, amount, mode), now, mode.Stable?);
  }

  lemma RepayValid(config: Configuration, r: Reserve, u: User, amount: int, mode: RateMode, now: int)
    requires Ready(config, r, now) && RepayDefined(r, u, amount, mode, now) && 0 < now
    requires mode.Stable? ==> 0 <= u.stableBorrowRate
    ensures Committed(AfterRepay(config, r, u, amount, mode, now), now, mode.Stable?).Valid()
  {
    hide RayMul, RayDiv, UsageRatio, Settle, UpdateState, AverageStableRate, RepayStable, RepaidAmount;
    AccrualFrame(r, now);
    var paid := RepaidAmount(r, u, amount, mode, now);
    var s := UpdateLiquidityAndUsageRatios(Accrued(r, now), paid, 0);
    RepaidCoreBalanced(s, u, paid, mode);
    if mode.Stable? {
      RepayStableNonnegative(s.averageStableBorrowRate, s.totalStableDebt, paid, u.stableBorrowRate);
    } else {
      RayDivBounds(paid, s.variableBorrowIndex);
    }
    CommittedSettleValid(config, RepaidCore(s, u, paid, mode).(lastUpdateTimestamp := now), now, mode.Stable?);
  }

  /** The debts a swap out of stable debt leaves, whatever the debt and whether or not rates can be
      computed from them, are sound exactly when it fits. */
  lemma SwappedCoreSoundIff(r: Reserve, u: User, now: int)
    requires r.Valid() && r.lastUpdateTimestamp <= now && 0 < now
    requires 0 <= UserStableDebt(u, now) && 0 <= u.stableBorrowRate
    ensures var core := SwappedCore(r, UpdateLiquidityAndUsageRatios(Accrued(r, now), 0, 0), u, Stable, now);
            Committed(core, now, true).Sound() <==> SwapFits(r, u, now)
  {
    hide RayMul, RayDiv, UsageRatio, UpdateState, AverageStableRate, UserStableDebt;
    AccrualFrame(r, now);
    SwapWithinTotalBalanced(r, u, now);
    var s := Accrued(r, now);
    var debt := UserStableDebt(u, now);
    RayDivBounds(debt, s.variableBorrowIndex);
    RemovalNonnegativeIff(r.averageStableBorrowRate, s.totalStableDebt, debt, u.stableBorrowRate);
  }

  /** A swap that fits is one the code gets through. */
  lemma FittingSwapIsDefined(config: Configuration, r: Reserve, u: User, now: int)
    requires r.Valid() && r.lastUpdateTimestamp <= now && 0 <= UserStableDebt(u, now) && SwapFits(r, u, now)
    ensures SwapDefined(config, r, u, Stable, now)
  {
    hide RayMul, RayDiv, UsageRatio, UpdateState, AverageStableRate, UserStableDebt;
    SwapWithinTotalBalanced(r, u, now);
  }

  /** A swap keeps the invariant exactly when it leads to the stable rate or the swapped stable debt fits. */
  lemma SwapValidIff(config: Configuration, r: Reserve, u: User, mode: RateMode, now: int)
    requires Ready(config, r, now) && SwapDefined(config, r, u, mode, now) && 0 < now
    requires mode.Stable? ==> 0 <= u.stableBorrowRate
    ensures Committed(AfterSwapRateMode(config, r, u, mode, now), now, true).Valid()
            <==> (mode.Stable? ==> SwapFits(r, u, now))
  {
    hide RayMul, RayDiv, UsageRatio, Settle, UpdateState, AverageStableRate, UserStableDebt, VariableDebtBalance, SwapFits;
    AccrualFrame(r, now);
    SwappedCoreSettleable(config, r, u, mode, now);
    var s := UpdateLiquidityAndUsageRatios(Accrued(r, now), 0, 0);
    var core := SwappedCore(r, s, u, mode, now);
    CommittedSettleValid(config, core, now, true);
    if mode.Stable? {
      SwappedCoreSoundIff(r, u, now);
    } else {
      var debt := VariableDebtBalance(r, u, now);
      AverageNonnegative(r.averageStableBorrowRate, r.totalStableDebt, debt, r.stableBorrowRate);
      RayDivBounds(debt, s.variableBorrowIndex);
    }
  }

  /** A reserve that has lent three units, all at the stable rate. */
  function StableLender(average: int): Reserve {
    FreshReserve(0, 0).(totalStableDebt := 3, principalStableDebt := 3, averageStableBorrowRate := average,
                        borrowUsageRatio := RAY, supplyUsageRatio := RAY,
                        lastUpdateTimestamp := 1, totalStableDebtLastUpdated := 1)
  }

  function StableBorrower(debt: int): User {
    User(0, 0, debt, 0, debt, 0, 0, 1, 1, false, 0)
  }

  lemma StableLenderValid(average: int)
    requires average >= 0
    ensures var r := StableLender(average);
            && r.Valid() && r.totalStableDebtLastUpdated == 1 == r.lastUpdateTimestamp && r.principalStableDebt == 3
            && r.averageStableBorrowRate == average && r.scaledVariableDebt == 0 && r.totalVariableDebt == 0
            && r.availableLiquidity == 0 == r.unbacked && r.variableBorrowIndex == RAY
  {
    hide RayMul, RayDiv, TruncDiv;
    RayDivAtMostOne(3, 3);
    RayMulUnit(RAY);
  }

  lemma StableDebtAtItsStamp(r: Reserve, now: int)
    requires r.Valid() && r.totalStableDebtLastUpdated == now == r.lastUpdateTimestamp
    ensures Accrued(r, now).totalStableDebt == r.principalStableDebt
  {
    hide RayMul, Accrued, UsageRatio, CompoundedInterest;
    AccrualFrame(r, now);
    NoTimeNoInterest(r.averageStableBorrowRate, now);
    RayMulUnit(r.principalStableDebt);
  }

  /** Swapping a stable debt away from this lender leaves the rest of three stable, the debt variable. */
  lemma SwapFromLender(config: Configuration, average: int, debt: int)
    requires config.Valid() && average >= 0 && 0 <= debt
    ensures StableLender(average).Valid()
    ensures SwapDefined(config, StableLender(average), StableBorrower(debt), Stable, 1)
    ensures SwapFits(StableLender(average), StableBorrower(debt), 1) <==> debt == 3 || (debt < 3 && debt < average * 3 + (3 - debt))
    ensures AfterSwapRateMode(config, StableLender(average), StableBorrower(debt), Stable, 1).principalStableDebt == 3 - debt
  {
    hide RayMul, RayDiv, UsageRatio, UpdateState, CompoundedInterest, AverageStableRate, StableLender;
    StableLenderValid(average);
    var r, u := StableLender(average), StableBorrower(debt);
    StableDebtAtItsStamp(r, 1);
    AccrualFrame(r, 1);
    assert UserStableDebt(u, 1) == debt;
    assert Accrued(r, 1).variableBorrowIndex == VariableBorrowIndexAt(r, 1) == RAY;
    RayDivNearest(debt, RAY, debt);
    RayMulUnit(debt);
  }

  /** A swap the code gets through that leaves an invalid record. */
  ghost predicate BadSwap(config: Configuration, r: Reserve, u: User, now: int) {
    && Ready(config, r, now) && SwapDefined(config, r, u, Stable, now) && 0 <= u.stableBorrowRate
    && !Committed(AfterSwapRateMode(config, r, u, Stable, now), now, true).Valid()
  }

  /** The exception is real: two units swapped away at rate one, while rounding has taken the average
      down to zero, leave a negative average; four units, where three are left in all, leave a negative
      principal though they weigh less than the average. */
  lemma SwapCanBreakInvariant(config: Configuration)
    requires config.Valid()
    ensures BadSwap(config, StableLender(0), StableBorrower(2), 1)
    ensures BadSwap(config, StableLender(5), StableBorrower(4), 1)
    ensures AfterSwapRateMode(config, StableLender(5), StableBorrower(4), Stable, 1).principalStableDebt == -1
  {
    hide AfterSwapRateMode, StableLender, SwapDefined, SwapFits, UserStableDebt, Committed, Reserve.Valid;
    StableLenderValid(0);
    StableLenderValid(5);
    SwapFromLender(config, 0, 2);
    SwapFromLender(config, 5, 4);
    SwapValidIff(config, StableLender(0), StableBorrower(2), Stable, 1);
    SwapValidIff(config, StableLender(5), StableBorrower(4), Stable, 1);
  }

  /** Any action the code gets through keeps the invariant, with one exception: a swap out of stable
      debt, which does exactly when the debt and its weight fit. */
  lemma StepValidIff(config: Configuration, r: Reserve, e: Event)
    requires config.Valid() && r.Valid() && Enabled(config, r, e)
    ensures Step(config, r, e).Valid() <==> Guard(r, e)
  {
    hide AfterDeposit, AfterWithdraw, AfterMintUnbacked, AfterBackUnbacked, AfterBorrow, AfterRepay, AfterSwapRateMode,
      RepayDefined, SwapDefined, BackingDefined, SwapFits, RayMul, UsageRatio, WithdrawnAmount;
    var now := e.time;
    match e.action
    case Deposit(amount) => DepositValid(config, r, amount, now);
    case Withdraw(u, amount) => WithdrawValid(config, r, u, amount, now);
    case MintUnbacked(amount) => MintUnbackedValid(config, r, amount, now);
    case BackUnbacked(supply, amount, fee, protocolFee) => BackUnbackedValid(config, r, supply, amount, fee, protocolFee, now);
    case Borrow(amount, mode) => BorrowValid(config, r, amount, mode, now);
    case Repay(u, amount, mode) => RepayValid(config, r, u, amount, mode, now);
    case SwapRateMode(u, mode) => SwapValidIff(config, r, u, mode, now);
  }

  lemma StepNeverLowersIndexes(config: Configuration, r: Reserve, e: Event)
    requires config.Valid() && r.Valid() && Enabled(config, r, e)
    ensures var n := Step(config, r, e);
            && n.liquidityIndex >= r.liquidityIndex && n.variableBorrowIndex >= r.variableBorrowIndex
            && n.accruedToTreasuryScaled >= r.accruedToTreasuryScaled
            && n.lastUpdateTimestamp == e.time
  {
    hide RayMul, RayDiv, UsageRatio, ExpectedInterestRates, UpdateState, AverageStableRate, UserStableDebt, VariableDebtBalance,
      RepaidAmount, WithdrawnAmount, CumulateToLiquidityIndex, PercentMul, Claims, RepayStable;
    AccrualFrame(r, e.time);
    UpdateStateKeepsSound(r, e.time);
    assert Accrued(r, e.time).accruedToTreasuryScaled >= r.accruedToTreasuryScaled by { TreasuryNeverFalls(r, e.time); }
    match e.action
    case Deposit(amount) =>
    case Withdraw(u, amount) =>
    case MintUnbacked(amount) =>
    case BackUnbacked(supply, amount, fee, protocolFee) =>
    case Borrow(amount, mode) => BorrowIsCoreThenSettle(config, r, amount, mode, e.time);
    case Repay(u, amount, mode) =>
    case SwapRateMode(u, mode) =>
  }

  /** Every action leaves the borrow index, and every action but backing the supply index, where accrual
      had taken it. */
  lemma ActionsLeaveAccruedIndexes(config: Configuration, r: Reserve, e: Event)
    requires config.Valid() && r.Valid() && Enabled(config, r, e)
    ensures var n, s := After(config, r, e), Accrued(r, e.time);
            && n.variableBorrowIndex == s.variableBorrowIndex
            && (!e.action.BackUnbacked? ==> n.liquidityIndex == s.liquidityIndex)
  {
    hide RayMul, RayDiv, UsageRatio, ExpectedInterestRates, UpdateState, AverageStableRate, UserStableDebt, VariableDebtBalance,
      RepaidAmount, WithdrawnAmount, CumulateToLiquidityIndex, PercentMul, Claims, RepayStable;
    match e.action
    case Deposit(amount) =>
    case Withdraw(u, amount) =>
    case MintUnbacked(amount) =>
    case BackUnbacked(supply, amount, fee, protocolFee) =>
    case Borrow(amount, mode) => BorrowIsCoreThenSettle(config, r, amount, mode, e.time);
    case Repay(u, amount, mode) =>
    case SwapRateMode(u, mode) =>
  }

  lemma TreasuryNeverFalls(r: Reserve, now: int)
    requires r.Valid() && r.lastUpdateTimestamp <= now
    ensures Accrued(r, now).accruedToTreasuryScaled >= r.accruedToTreasuryScaled
  {
    UpdateStateKeepsSound(r, now);
    hide UpdateState;
  }

  // ---------------------------------------------------------------------------
  // Whole runs
  // ---------------------------------------------------------------------------

  predicate Possible(config: Configuration, r: Reserve, e: Event)
    requires config.Valid() && r.Valid()
  {
    Enabled(config, r, e) && Guard(r, e)
  }

  /** From a valid state the action must be possible and lead to the next state; of any other state
      nothing is said. */
  ghost predicate Steps(config: Configuration, r: Reserve, e: Event, next: Reserve) {
    config.Valid() && (r.Valid() ==> Possible(config, r, e) && next == Step(config, r, e))
  }

  /** The states a run passes through, each the step of the one before it. */
  ghost predicate Run(config: Configuration, events: seq<Event>, states: seq<Reserve>) {
    && |states| == |events| + 1
    && forall i :: 0 <= i < |events| ==> Steps(config, states[i], events[i], states[i + 1])
  }

  /** A step leads from a valid state to a valid state, from which nothing has fallen. */
  lemma StepFacts(config: Configuration, r: Reserve, e: Event, next: Reserve)
    requires Steps(config, r, e, next) && r.Valid()
    ensures config.Valid() && next.Valid() && Enabled(config, r, e)
    ensures next.liquidityIndex >= r.liquidityIndex && next.variableBorrowIndex >= r.variableBorrowIndex
    ensures next.accruedToTreasuryScaled >= r.accruedToTreasuryScaled
    ensures next.lastUpdateTimestamp == e.time >= r.lastUpdateTimestamp
  {
    hide RayMul, UsageRatio, After, Guard;
    StepValidIff(config, r, e);
    StepNeverLowersIndexes(config, r, e);
    EnabledTime(config, r, e);
  }

  lemma {:induction false} RunStaysValid(config: Configuration, events: seq<Event>, states: seq<Reserve>, i: nat)
    requires Run(config, events, states) && states[0].Valid() && i < |states|
    ensures states[i].Valid()
  {
    hide Steps, RayMul, UsageRatio;
    if i > 0 {
      RunStaysValid(config, events, states, i - 1);
      assert Steps(config, states[i - 1], events[i - 1], states[i]);
      StepFacts(config, states[i - 1], events[i - 1], states[i]);
    }
  }

  lemma RunActionEnabled(config: Configuration, events: seq<Event>, states: seq<Reserve>, i: nat)
    requires Run(config, events, states) && states[0].Valid() && i < |events|
    ensures config.Valid() && states[i].Valid() && Enabled(config, states[i], events[i])
    ensures states[i].lastUpdateTimestamp <= events[i].time
  {
    hide Steps, RayMul, UsageRatio;
    RunStaysValid(config, events, states, i);
    assert Steps(config, states[i], events[i], states[i + 1]);
    StepFacts(config, states[i], events[i], states[i + 1]);
  }

  /** A run that starts valid stays valid in every state, and between any two states neither index has
      fallen, nor has the treasury's share. */
  lemma {:induction false} RunInvariant(config: Configuration, events: seq<Event>, states: seq<Reserve>, i: nat, j: nat)
    requires Run(config, events, states) && states[0].Valid() && i <= j < |states|
    ensures states[i].Valid() && states[j].Valid()
    ensures RAY <= states[i].liquidityIndex <= states[j].liquidityIndex
    ensures RAY <= states[i].variableBorrowIndex <= states[j].variableBorrowIndex
    ensures states[i].accruedToTreasuryScaled <= states[j].accruedToTreasuryScaled
    ensures states[i].lastUpdateTimestamp <= states[j].lastUpdateTimestamp
    decreases j
  {
    hide Steps, RayMul, UsageRatio;
    RunStaysValid(config, events, states, j);
    if i < j {
      RunInvariant(config, events, states, i, j - 1);
      assert Steps(config, states[j - 1], events[j - 1], states[j]);
      StepFacts(config, states[j - 1], events[j - 1], states[j]);
    }
  }

  /** Which runs there are: from where a run has got to, an action the code gets through continues it
      exactly when it leaves a valid state. */
  lemma RunExtends(config: Configuration, events: seq<Event>, states: seq<Reserve>, e: Event)
    requires Run(config, events, states) && states[0].Valid() && config.Valid()
    ensures states[|events|].Valid()
    ensures Enabled(config, states[|events|], e) ==>
              (Step(config, states[|events|], e).Valid() <==>
               Run(config, events + [e], states + [Step(config, states[|events|], e)]))
  {
    hide RayMul, UsageRatio, Step, Enabled, Guard;
    RunStaysValid(config, events, states, |events|);
    var last := states[|events|];
    if Enabled(config, last, e) {
      assert last.lastUpdateTimestamp <= e.time by { EnabledTime(config, last, e); }
      StepValidIff(config, last, e);
      var next := Step(config, last, e);
      var es, ss := events + [e], states + [next];
      assert es[|events|] == e && ss[|events|] == last && ss[|events| + 1] == next;
      if Run(config, es, ss) {
        assert Steps(config, ss[|events|], es[|events|], ss[|events| + 1]);
      }
    }
  }

  /** States each of which is what the code makes of the one before it, whether or not it should. */
  ghost predicate Attempts(config: Configuration, events: seq<Event>, states: seq<Reserve>) {
    && config.Valid() && |states| == |events| + 1
    && forall i :: 0 <= i < |events| && states[i].Valid() ==> Attempted(config, states[i], events[i], states[i + 1])
  }

  ghost predicate Attempted(config: Configuration, r: Reserve, e: Event, next: Reserve)
    requires config.Valid() && r.Valid()
  {
    Enabled(config, r, e) && next == Step(config, r, e)
  }

  /** Whatever actions the code gets through, all states are valid exactly when every swap on the way fits. */
  lemma AttemptsStayValidIff(config: Configuration, events: seq<Event>, states: seq<Reserve>)
    requires Attempts(config, events, states) && states[0].Valid()
    ensures (forall i :: 0 <= i < |states| ==> states[i].Valid()) <==> Run(config, events, states)
  {
    hide RayMul, UsageRatio, Step, Enabled, Guard, Reserve.Valid;
    if Run(config, events, states) {
      forall i | 0 <= i < |states|
        ensures states[i].Valid()
      {
        RunStaysValid(config, events, states, i);
      }
    } else if forall i :: 0 <= i < |states| ==> states[i].Valid() {
      forall i | 0 <= i < |events|
        ensures Steps(config, states[i], events[i], states[i + 1])
      {
        assert states[i].Valid() && states[i + 1].Valid() && Attempted(config, states[i], events[i], states[i + 1]);
        EnabledTime(config, states[i], events[i]);
        StepValidIff(config, states[i], events[i]);
      }
      assert false;
    }
  }

  lemma EnabledTime(config: Configuration, r: Reserve, e: Event)
    requires config.Valid() && r.Valid() && Enabled(config, r, e)
    ensures r.lastUpdateTimestamp <= e.time
  {}

  /** In every state of every run: the supply ratio is never above the borrow ratio and neither above
      one, the variable debt is the scaled debt at its index, and no usage earns no income. */
  lemma StateFacts(r: Reserve)
    requires r.Valid()
    ensures 0 <= r.supplyUsageRatio <= r.borrowUsageRatio <= RAY
    ensures r.totalVariableDebt == RayMul(r.scaledVariableDebt, r.variableBorrowIndex)
    ensures r.totalLiquidity == r.availableLiquidity + r.unbacked
    ensures r.TotalDebt() == 0 ==> r.liquidityRate == 0
  {
    hide UsageRatio, RayMul;
    UsageFallsWithLiquidity(r.TotalDebt(), r.availableLiquidity, r.totalLiquidity);
  }

  /** The fresh reserve of a market. */
  function FreshReserve(reserveFactor: int, marketStableRate: int): Reserve {
    Reserve(reserveFactor, 0, 0, 0, 0, 0, 0, 0, 0, 0, 0, 0, 0, 0, RAY, RAY, 0, marketStableRate, 0, 0)
  }

  lemma FreshReserveValid(reserveFactor: int, marketStableRate: int)
    requires 0 <= reserveFactor <= PERCENTAGE_FACTOR && 0 <= marketStableRate
    ensures FreshReserve(reserveFactor, marketStableRate).Valid()
  {}
}
