/** The reserve and user records, and how indexes, debts and the treasury grow with time. */
module Accrual {
  import opened WadRayMath
  import opened Interest
  import opened Rates

  datatype Reserve = Reserve(
    reserveFactor: int,
    availableLiquidity: int,
    totalLiquidity: int,
    unbacked: int,
    totalStableDebt: int,
    totalVariableDebt: int,
    principalStableDebt: int,
    scaledVariableDebt: int,
    averageStableBorrowRate: int,
    variableBorrowRate: int,
    stableBorrowRate: int,
    liquidityRate: int,
    supplyUsageRatio: int,
    borrowUsageRatio: int,
    liquidityIndex: int,
    variableBorrowIndex: int,
    accruedToTreasuryScaled: int,
    marketStableRate: int,
    lastUpdateTimestamp: int,
    totalStableDebtLastUpdated: int)
  {
    function TotalDebt(): int {
      totalStableDebt + totalVariableDebt
    }

    /** Nothing owed, held or earned is negative, and the indexes never discount. */
    predicate Sound() {
      && 0 <= reserveFactor <= PERCENTAGE_FACTOR
      && RAY <= liquidityIndex && RAY <= variableBorrowIndex
      && 0 <= availableLiquidity && 0 <= unbacked
      && 0 <= totalStableDebt && 0 <= principalStableDebt && 0 <= scaledVariableDebt
      && 0 <= averageStableBorrowRate && 0 <= marketStableRate
      && 0 <= accruedToTreasuryScaled
      && totalVariableDebt == RayMul(scaledVariableDebt, variableBorrowIndex)
      && totalStableDebtLastUpdated <= lastUpdateTimestamp
      && (totalStableDebtLastUpdated == 0 ==> principalStableDebt == 0)
    }

    /** The invariant of every run: a sound reserve whose derived fields are up to date. */
    predicate Valid() {
      && Sound()
      && 0 <= totalVariableDebt
      && totalLiquidity == availableLiquidity + unbacked
      && borrowUsageRatio == UsageRatio(TotalDebt(), availableLiquidity)
      && supplyUsageRatio == UsageRatio(TotalDebt(), totalLiquidity)
      && 0 <= variableBorrowRate && 0 <= stableBorrowRate && 0 <= liquidityRate
      && (supplyUsageRatio == 0 ==> liquidityRate == 0)
    }
  }

  datatype User = User(
    scaledRSTokenBalance: int,
    currentRSTokenBalance: int,
    currentStableDebt: int,
    currentVariableDebt: int,
    principalStableDebt: int,
    scaledVariableDebt: int,
    liquidityRate: int,
    stableBorrowRate: int,
    stableRateLastUpdated: int,
    usageAsCollateralEnabled: bool,
    walletBalance: int)

  // ---------------------------------------------------------------------------
  // Indexes and balances at a time
  // ---------------------------------------------------------------------------

  function ReserveNormalizedIncome(r: Reserve, now: int): int {
    if r.liquidityRate == 0 then r.liquidityIndex
    else RayMul(LinearInterest(r.liquidityRate, now, r.lastUpdateTimestamp), r.liquidityIndex)
  }

  function ReserveNormalizedDebt(variableBorrowRate: int, variableBorrowIndex: int, last: int, now: int): int {
    if variableBorrowRate == 0 then variableBorrowIndex
    else RayMul(CompoundedInterest(variableBorrowRate, now, last), variableBorrowIndex)
  }

  function LiquidityIndexAt(r: Reserve, now: int): int {
    if r.supplyUsageRatio == 0 then r.liquidityIndex
    else RayMul(LinearInterest(r.liquidityRate, now, r.lastUpdateTimestamp), r.liquidityIndex)
  }

  function VariableBorrowIndexAt(r: Reserve, now: int): int {
    if r.totalVariableDebt == 0 then r.variableBorrowIndex
    else RayMul(CompoundedInterest(r.variableBorrowRate, now, r.lastUpdateTimestamp), r.variableBorrowIndex)
  }

  function TotalStableDebtAt(principal: int, averageRate: int, last: int, now: int): int {
    RayMul(CompoundedInterest(averageRate, now, last), principal)
  }

  function StableDebtBalance(principal: int, rate: int, last: int, now: int): int {
    if rate == 0 || now == last || last == 0 then principal
    else RayMul(principal, CompoundedInterest(rate, now, last))
  }

  function RSTokenBalance(r: Reserve, u: User, now: int): int {
    RayMul(u.scaledRSTokenBalance, ReserveNormalizedIncome(r, now))
  }

  function VariableDebtBalance(r: Reserve, u: User, now: int): int {
    RayMul(u.scaledVariableDebt,
           ReserveNormalizedDebt(r.variableBorrowRate, r.variableBorrowIndex, r.lastUpdateTimestamp, now))
  }

  function UserStableDebt(u: User, now: int): int {
    StableDebtBalance(u.principalStableDebt, u.stableBorrowRate, u.stableRateLastUpdated, now)
  }

  // ---------------------------------------------------------------------------
  // Accruing a reserve
  // ---------------------------------------------------------------------------

  /** Debt added by interest since the last update: after accrual less before it. */
  function TotalDebtAccrued(r: Reserve, next: Reserve): int {
    RayMul(next.scaledVariableDebt, next.variableBorrowIndex) + next.totalStableDebt
    - RayMul(r.scaledVariableDebt, r.variableBorrowIndex)
    - RayMul(r.principalStableDebt,
             CompoundedInterest(r.averageStableBorrowRate, r.lastUpdateTimestamp, r.totalStableDebtLastUpdated))
  }

  function AccrueToTreasury(r: Reserve, next: Reserve): int
    requires next.liquidityIndex != 0
  {
    if r.reserveFactor == 0 then r.accruedToTreasuryScaled else
    var amountToMint := PercentMul(TotalDebtAccrued(r, next), r.reserveFactor);
    if amountToMint > 0 then r.accruedToTreasuryScaled + RayDiv(amountToMint, next.liquidityIndex)
    else r.accruedToTreasuryScaled
  }

  /** The indexes and debts at a time, before the treasury takes its share. */
  function WithInterest(r: Reserve, now: int): Reserve {
    var index := VariableBorrowIndexAt(r, now);
    r.(liquidityIndex := LiquidityIndexAt(r, now),
       variableBorrowIndex := index,
       totalStableDebt := TotalStableDebtAt(r.principalStableDebt, r.averageStableBorrowRate, r.totalStableDebtLastUpdated, now),
       totalVariableDebt := RayMul(r.scaledVariableDebt, index))
  }

  function UpdateState(r: Reserve, now: int): Reserve
    requires LiquidityIndexAt(r, now) != 0
  {
    var next := WithInterest(r, now);
    next.(accruedToTreasuryScaled := AccrueToTreasury(r, next))
  }

  // ---------------------------------------------------------------------------
  // Accrual only grows things
  // ---------------------------------------------------------------------------

  lemma FactorGrows(factor: int, index: int)
    requires factor >= RAY && index >= 0
    ensures RayMul(factor, index) >= index
  {
    RayMulMonotone(RAY, factor, index, index);
    RayMulUnit(index);
  }

  lemma IndexesNeverFall(r: Reserve, now: int)
    requires r.Valid() && now >= r.lastUpdateTimestamp
    ensures LiquidityIndexAt(r, now) >= r.liquidityIndex
    ensures VariableBorrowIndexAt(r, now) >= r.variableBorrowIndex
  {
    hide RayMul, LinearInterest, CompoundedInterest, UsageRatio;
    CompoundedAtLeastLinear(r.liquidityRate, now, r.lastUpdateTimestamp);
    CompoundedAtLeastLinear(r.variableBorrowRate, now, r.lastUpdateTimestamp);
    FactorGrows(LinearInterest(r.liquidityRate, now, r.lastUpdateTimestamp), r.liquidityIndex);
    FactorGrows(CompoundedInterest(r.variableBorrowRate, now, r.lastUpdateTimestamp), r.variableBorrowIndex);
  }

  /** The supply index earns the liquidity rate for the time, up to one unit of the interest factor and
      half a unit of the index. */
  lemma SupplyIndexEarns(r: Reserve, now: int)
    requires r.Valid() && now >= r.lastUpdateTimestamp
    ensures var earned := r.liquidityRate * (now - r.lastUpdateTimestamp);
            && 2 * RAY * ONE_YEAR * LiquidityIndexAt(r, now)
               <= 2 * ((RAY * ONE_YEAR + earned) * r.liquidityIndex) + RAY * ONE_YEAR
            && 2 * RAY * ONE_YEAR * LiquidityIndexAt(r, now)
               >= 2 * ((RAY * ONE_YEAR + earned - ONE_YEAR) * r.liquidityIndex) - RAY * ONE_YEAR
  {
    var factor := LinearInterest(r.liquidityRate, now, r.lastUpdateTimestamp);
    LinearToTheUnit(r.liquidityRate, now, r.lastUpdateTimestamp);
    CompoundedAtLeastLinear(r.liquidityRate, now, r.lastUpdateTimestamp);
    IncomeFormsAgree(r, now);
    NoRateNoInterest(now, r.lastUpdateTimestamp);
    RayMulUnit(r.liquidityIndex);
    assert LiquidityIndexAt(r, now) == RayMul(factor, r.liquidityIndex);
    RayMulBounds(factor, r.liquidityIndex);
    hide RayMul, LinearInterest, CompoundedInterest, LiquidityIndexAt, UsageRatio;
    EarnedArithmetic(factor, r.liquidityIndex, r.liquidityRate * (now - r.lastUpdateTimestamp), LiquidityIndexAt(r, now));
  }

  lemma EarnedArithmetic(factor: int, index: int, earned: int, index': int)
    requires index >= 0 && ONE_YEAR * (factor - RAY) <= earned < ONE_YEAR * (factor - RAY) + ONE_YEAR
    requires -RAY <= 2 * RAY * index' - 2 * (factor * index) <= RAY
    ensures 2 * RAY * ONE_YEAR * index' <= 2 * ((RAY * ONE_YEAR + earned) * index) + RAY * ONE_YEAR
    ensures 2 * RAY * ONE_YEAR * index' >= 2 * ((RAY * ONE_YEAR + earned - ONE_YEAR) * index) - RAY * ONE_YEAR
  {
    MulMono(ONE_YEAR * factor, RAY * ONE_YEAR + earned, index);
    MulMono(RAY * ONE_YEAR + earned - ONE_YEAR, ONE_YEAR * factor, index);
    assert (ONE_YEAR * factor) * index == ONE_YEAR * (factor * index);
  }

  /** The borrow index compounds the variable rate while anything is owed at it, and rests otherwise. */
  lemma BorrowIndexCompounds(r: Reserve, now: int)
    requires r.Valid() && now >= r.lastUpdateTimestamp
    ensures r.totalVariableDebt == 0 ==> VariableBorrowIndexAt(r, now) == r.variableBorrowIndex
    ensures r.totalVariableDebt != 0 ==>
              2 * Abs(RAY * VariableBorrowIndexAt(r, now)
                      - CompoundedInterest(r.variableBorrowRate, now, r.lastUpdateTimestamp) * r.variableBorrowIndex) <= RAY
  {
    CompoundedAtLeastLinear(r.variableBorrowRate, now, r.lastUpdateTimestamp);
    RayMulBounds(CompoundedInterest(r.variableBorrowRate, now, r.lastUpdateTimestamp), r.variableBorrowIndex);
    hide RayMul, CompoundedInterest, UsageRatio;
  }

  /** Both indexes keep growing with the time they are accrued to. */
  lemma IndexesGrowWithTime(r: Reserve, now: int, later: int)
    requires r.Valid() && r.lastUpdateTimestamp <= now <= later
    ensures LiquidityIndexAt(r, now) <= LiquidityIndexAt(r, later)
    ensures VariableBorrowIndexAt(r, now) <= VariableBorrowIndexAt(r, later)
  {
    hide RayMul, LinearInterest, CompoundedInterest, UsageRatio;
    var last := r.lastUpdateTimestamp;
    LinearMonotone(r.liquidityRate, now, later, last);
    CompoundedMonotone(r.variableBorrowRate, r.variableBorrowRate, now, later, last);
    CompoundedAtLeastLinear(r.liquidityRate, now, last);
    CompoundedAtLeastLinear(r.variableBorrowRate, now, last);
    RayMulMonotone(LinearInterest(r.liquidityRate, now, last), LinearInterest(r.liquidityRate, later, last),
                   r.liquidityIndex, r.liquidityIndex);
    RayMulMonotone(CompoundedInterest(r.variableBorrowRate, now, last), CompoundedInterest(r.variableBorrowRate, later, last),
                   r.variableBorrowIndex, r.variableBorrowIndex);
  }

  /** Stable debt never falls below its principal, and never falls with time. */
  lemma StableDebtGrows(principal: int, rate: int, last: int, now: int, later: int)
    requires principal >= 0 && rate >= 0 && last <= now <= later
    ensures principal <= TotalStableDebtAt(principal, rate, last, now) <= TotalStableDebtAt(principal, rate, last, later)
    ensures TotalStableDebtAt(principal, rate, last, now) == RayMul(principal, CompoundedInterest(rate, now, last))
  {
    assert RayMul(CompoundedInterest(rate, now, last), principal) == RayMul(principal, CompoundedInterest(rate, now, last)) by {
      RayMulCommutes(CompoundedInterest(rate, now, last), principal);
    }
    hide RayMul, LinearInterest, CompoundedInterest;
    CompoundedAtLeastLinear(rate, now, last);
    CompoundedMonotone(rate, rate, now, later, last);
    FactorGrows(CompoundedInterest(rate, now, last), principal);
    RayMulMonotone(CompoundedInterest(rate, now, last), CompoundedInterest(rate, later, last), principal, principal);
  }

  lemma RayMulCommutes(a: int, b: int)
    ensures RayMul(a, b) == RayMul(b, a)
  {
    assert a * b == b * a;
  }

  /** The stable debt is its principal accrued to the last update. */
  predicate DebtsCurrent(r: Reserve) {
    r.totalStableDebt ==
    TotalStableDebtAt(r.principalStableDebt, r.averageStableBorrowRate, r.totalStableDebtLastUpdated, r.lastUpdateTimestamp)
  }

  /** The debt the treasury takes its share of is what all debts have grown by. */
  lemma AccruedDebtIsGrowth(r: Reserve, now: int)
    requires r.Valid() && DebtsCurrent(r)
    ensures TotalDebtAccrued(r, WithInterest(r, now)) == WithInterest(r, now).TotalDebt() - r.TotalDebt()
  {
    hide RayMul, CompoundedInterest, UsageRatio, VariableBorrowIndexAt, LiquidityIndexAt;
    RayMulCommutes(r.principalStableDebt,
                   CompoundedInterest(r.averageStableBorrowRate, r.lastUpdateTimestamp, r.totalStableDebtLastUpdated));
  }

  /** The treasury's share of accrued interest is never negative and never more than the interest. */
  lemma TreasuryAccrualSound(r: Reserve, now: int)
    requires r.Valid() && now >= r.lastUpdateTimestamp
    ensures var next := WithInterest(r, now);
            && next.liquidityIndex > 0
            && 0 <= PercentMul(TotalDebtAccrued(r, next), r.reserveFactor) <= TotalDebtAccrued(r, next)
            && (DebtsCurrent(r) ==> TotalDebtAccrued(r, next) == next.TotalDebt() - r.TotalDebt())
            && r.accruedToTreasuryScaled <= AccrueToTreasury(r, next)
  {
    if DebtsCurrent(r) {
      AccruedDebtIsGrowth(r, now);
    }
    hide RayMul, RayDiv, PercentMul, TruncDiv, CompoundedInterest, UsageRatio, DebtsCurrent;
    var next := WithInterest(r, now);
    IndexesNeverFall(r, now);
    RayMulMonotone(r.scaledVariableDebt, r.scaledVariableDebt, r.variableBorrowIndex, next.variableBorrowIndex);
    StableDebtGrows(r.principalStableDebt, r.averageStableBorrowRate, r.totalStableDebtLastUpdated, r.lastUpdateTimestamp, now);
    var accrued := TotalDebtAccrued(r, next);
    assert accrued >= 0;
    PercentMulBounds(accrued, r.reserveFactor);
    RayDivBounds(PercentMul(accrued, r.reserveFactor), next.liquidityIndex);
  }

  /** What the treasury is credited, rebased, is its percentage of the interest up to rounding. */
  lemma TreasuryShareExact(r: Reserve, now: int)
    requires r.Valid() && now >= r.lastUpdateTimestamp
    ensures var next := WithInterest(r, now);
            var accrued := TotalDebtAccrued(r, next);
            var minted := PercentMul(accrued, r.reserveFactor);
            && next.liquidityIndex > 0
            && (DebtsCurrent(r) ==> accrued == next.TotalDebt() - r.TotalDebt())
            && Abs(10000 * minted - accrued * r.reserveFactor) <= 5000
            && 2 * RAY * Abs(RayMul(AccrueToTreasury(r, next) - r.accruedToTreasuryScaled, next.liquidityIndex) - minted)
               <= next.liquidityIndex + RAY
  {
    hide RayMul, RayDiv, PercentMul, TruncDiv, CompoundedInterest, UsageRatio, TotalDebtAccrued, DebtsCurrent;
    var next := WithInterest(r, now);
    IndexesNeverFall(r, now);
    TreasuryAccrualSound(r, now);
    var accrued := TotalDebtAccrued(r, next);
    PercentMulBounds(accrued, r.reserveFactor);
    var minted := PercentMul(accrued, r.reserveFactor);
    ScaleThenRebase(minted, next.liquidityIndex);
    RayMulUnit(next.liquidityIndex);
    if r.reserveFactor == 0 {
      assert accrued * r.reserveFactor == 0;
    }
  }

  /** Accrual keeps a reserve sound; it changes neither liquidity nor principal nor scaled debt. */
  lemma UpdateStateKeepsSound(r: Reserve, now: int)
    requires r.Valid() && now >= r.lastUpdateTimestamp
    ensures LiquidityIndexAt(r, now) >= RAY
    ensures var s := UpdateState(r, now);
            && s.Sound()
            && s.liquidityIndex >= r.liquidityIndex && s.variableBorrowIndex >= r.variableBorrowIndex
            && s.totalVariableDebt >= r.totalVariableDebt
            && s.totalStableDebt >= r.principalStableDebt
            && s.accruedToTreasuryScaled >= r.accruedToTreasuryScaled
  {
    hide RayMul, CompoundedInterest, UsageRatio, AccrueToTreasury, LiquidityIndexAt, VariableBorrowIndexAt;
    IndexesNeverFall(r, now);
    TreasuryAccrualSound(r, now);
    StableDebtGrows(r.principalStableDebt, r.averageStableBorrowRate, r.totalStableDebtLastUpdated, now, now);
    RayMulMonotone(r.scaledVariableDebt, r.scaledVariableDebt, r.variableBorrowIndex, VariableBorrowIndexAt(r, now));
  }

  // ---------------------------------------------------------------------------
  // Differently guarded forms of the same accrual
  // ---------------------------------------------------------------------------

  lemma FactorAboveOneGrows(factor: int, index: int)
    requires factor >= RAY + 1 && index >= RAY
    ensures RayMul(factor, index) >= index + 1
  {
    RayMulBounds(factor, index);
    MulMono(RAY + 1, factor, index);
    hide RayMul, TruncDiv;
  }

  /** One form asks whether the rate is zero, the other whether the usage is: on any reserve they
      agree exactly when there is usage or too little time for the rate to pay a single unit. */
  lemma IncomeFormsAgreeIff(r: Reserve, now: int)
    requires r.liquidityRate >= 0 && r.liquidityIndex >= RAY && now >= r.lastUpdateTimestamp
    ensures ReserveNormalizedIncome(r, now) == LiquidityIndexAt(r, now)
            <==> r.supplyUsageRatio != 0 || r.liquidityRate * (now - r.lastUpdateTimestamp) < ONE_YEAR
  {
    var n := now - r.lastUpdateTimestamp;
    SimpleInterestBounds(r.liquidityRate, n);
    TruncDivBracket(r.liquidityRate * n, ONE_YEAR, 0);
    RayMulUnit(r.liquidityIndex);
    if r.liquidityRate == 0 {
      NoRateNoInterest(now, r.lastUpdateTimestamp);
      assert r.liquidityRate * n == 0;
    } else if r.liquidityRate * n >= ONE_YEAR {
      FactorAboveOneGrows(LinearInterest(r.liquidityRate, now, r.lastUpdateTimestamp), r.liquidityIndex);
    }
  }

  /** On every state of a run the two income forms agree. */
  lemma IncomeFormsAgree(r: Reserve, now: int)
    requires r.Valid() && now >= r.lastUpdateTimestamp
    ensures ReserveNormalizedIncome(r, now) == LiquidityIndexAt(r, now)
  {
    hide UsageRatio, RayMul;
    IncomeFormsAgreeIff(r, now);
    if r.supplyUsageRatio == 0 {
      assert r.liquidityRate * (now - r.lastUpdateTimestamp) == 0;
    }
  }

  /** A user's variable debt is the scaled debt at the reserve's index, though the index ignores
      time while nothing is borrowed and the balance ignores it while the rate is zero. */
  lemma DebtFormsAgree(r: Reserve, u: User, now: int)
    requires r.totalVariableDebt == RayMul(r.scaledVariableDebt, r.variableBorrowIndex) && RAY <= r.variableBorrowIndex
    requires 0 <= r.variableBorrowRate && now >= r.lastUpdateTimestamp && 0 <= u.scaledVariableDebt <= r.scaledVariableDebt
    ensures VariableDebtBalance(r, u, now) == RayMul(u.scaledVariableDebt, VariableBorrowIndexAt(r, now))
  {
    NoRateNoInterest(now, r.lastUpdateTimestamp);
    hide RayMul, CompoundedInterest;
    CompoundedAtLeastLinear(r.variableBorrowRate, now, r.lastUpdateTimestamp);
    RayMulUnit(r.variableBorrowIndex);
    var index := ReserveNormalizedDebt(r.variableBorrowRate, r.variableBorrowIndex, r.lastUpdateTimestamp, now);
    FactorGrows(CompoundedInterest(r.variableBorrowRate, now, r.lastUpdateTimestamp), r.variableBorrowIndex);
    if r.totalVariableDebt == 0 {
      ScaledDebtZero(r.scaledVariableDebt, r.variableBorrowIndex);
      RayMulUnit(index);
    }
  }

  /** At an index of at least one, a rebased debt is zero only when nothing is owed. */
  lemma ScaledDebtZero(scaled: int, index: int)
    requires scaled >= 0 && index >= RAY
    ensures RayMul(scaled, index) == 0 <==> scaled == 0
  {
    RayMulBounds(scaled, index);
    MulMono(RAY, index, scaled);
    RayMulUnit(index);
    hide RayMul, TruncDiv;
  }

  /** The balance's extra guards skip only accruals that would change nothing, except for debt that
      was never stamped with a time. */
  lemma StableFormsAgree(principal: int, rate: int, last: int, now: int)
    requires principal >= 0 && rate >= 0 && last <= now
    requires last == 0 ==> principal == 0
    ensures StableDebtBalance(principal, rate, last, now) == TotalStableDebtAt(principal, rate, last, now)
  {
    NoTimeNoInterest(rate, last);
    NoRateNoInterest(now, last);
    StableDebtGrows(principal, rate, last, now, now);
    CompoundedAtLeastLinear(rate, now, last);
    hide RayMul, CompoundedInterest;
    RayMulUnit(principal);
    RayMulUnit(CompoundedInterest(rate, now, last));
  }

  /** For any debt, stamped or not: the guarded balance is the unguarded one exactly when the debt is
      stamped or would not have grown. */
  lemma StableFormsAgreeIff(principal: int, rate: int, last: int, now: int)
    requires principal >= 0 && rate >= 0 && last <= now
    ensures StableDebtBalance(principal, rate, last, now) == TotalStableDebtAt(principal, rate, last, now)
            <==> last != 0 || TotalStableDebtAt(principal, rate, last, now) == principal
  {
    if last != 0 {
      StableFormsAgree(principal, rate, last, now);
    }
  }

  // ---------------------------------------------------------------------------
  // Accruing in two steps
  // ---------------------------------------------------------------------------

  /** Accruing the supply index halfway and then to the end loses at most the loss of one unit of
      interest at the old index, and two roundings. */
  lemma LiquidityIndexSplit(r: Reserve, t1: int, t2: int)
    requires r.liquidityRate >= 0 && r.liquidityIndex >= 0 && r.lastUpdateTimestamp <= t1 <= t2
    ensures var halfway := r.(liquidityIndex := LiquidityIndexAt(r, t1), lastUpdateTimestamp := t1);
            2 * RAY * (LiquidityIndexAt(r, t2) - LiquidityIndexAt(halfway, t2))
            <= 2 * r.liquidityIndex + LinearInterest(r.liquidityRate, t2, t1) + 2 * RAY
  {
    hide RayMul, LinearInterest, TruncDiv;
    var t0 := r.lastUpdateTimestamp;
    LinearSplitProduct(r.liquidityRate, t0, t1, t2);
    CompoundedAtLeastLinear(r.liquidityRate, t1, t0);
    CompoundedAtLeastLinear(r.liquidityRate, t2, t1);
    CompoundedAtLeastLinear(r.liquidityRate, t2, t0);
    IndexSplit(LinearInterest(r.liquidityRate, t2, t0), LinearInterest(r.liquidityRate, t1, t0),
               LinearInterest(r.liquidityRate, t2, t1), r.liquidityIndex, 1, RAY);
  }

  /** The borrow index accrued in two steps falls short of one step by at most the explicit loss. */
  lemma VariableBorrowIndexSplit(r: Reserve, t1: int, t2: int)
    requires r.variableBorrowRate >= 0 && r.variableBorrowIndex >= 0 && r.lastUpdateTimestamp <= t1 <= t2
    ensures var halfway := r.(variableBorrowIndex := VariableBorrowIndexAt(r, t1), lastUpdateTimestamp := t1);
            var k := 2 * ONE_YEAR * ONE_YEAR;
            2 * RAY * RAY * (k * (VariableBorrowIndexAt(r, t2) - VariableBorrowIndexAt(halfway, t2)))
            <= 2 * (SplitLoss(r.variableBorrowRate, t1 - r.lastUpdateTimestamp, t2 - t1) * r.variableBorrowIndex)
               + k * (CompoundedInterest(r.variableBorrowRate, t2, t1) * RAY + 2 * RAY * RAY)
  {
    hide RayMul, LinearInterest, CompoundedInterest, TruncDiv;
    var t0 := r.lastUpdateTimestamp;
    CompoundedSplitProduct(r.variableBorrowRate, t0, t1, t2);
    SplitLossNonnegative(r.variableBorrowRate, t1 - t0, t2 - t1);
    hide SplitLoss;
    CompoundedAtLeastLinear(r.variableBorrowRate, t1, t0);
    CompoundedAtLeastLinear(r.variableBorrowRate, t2, t1);
    CompoundedAtLeastLinear(r.variableBorrowRate, t2, t0);
    IndexSplit(CompoundedInterest(r.variableBorrowRate, t2, t0), CompoundedInterest(r.variableBorrowRate, t1, t0),
               CompoundedInterest(r.variableBorrowRate, t2, t1), r.variableBorrowIndex,
               2 * ONE_YEAR * ONE_YEAR, SplitLoss(r.variableBorrowRate, t1 - t0, t2 - t1));
    MulMono(0, SplitLoss(r.variableBorrowRate, t1 - t0, t2 - t1), r.variableBorrowIndex);
  }

  lemma SplitLossNonnegative(rate: int, n: nat, m: nat)
    requires rate >= 0
    ensures SplitLoss(rate, n, m) >= 0
  {
    BasePowersNonnegative(rate);
    hide BasePowerTwo, Choose2;
    MulMono(0, n, m);
    MulMono(0, rate, n + m);
    MulMono(0, Choose2(n), m);
    MulMono(0, Choose2(m), n);
    MulMono(0, BasePowerTwo(rate), Choose2(n) + Choose2(m));
  }
}
