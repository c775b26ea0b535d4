/** Over any run, what suppliers and treasury can claim grows by no more than what the pool has and is
    owed, up to an explicit slack of rounding and approximation. */
module Solvency {
  import opened WadRayMath
  import opened Interest
  import opened Rates
  import opened StableRate
  import opened Accrual
  import opened Transitions
  import opened Runs
  import opened Bridge

  // ---------------------------------------------------------------------------
  // Every action leaves rates and debts up to date
  // ---------------------------------------------------------------------------

  /** The rates are those of the debts and liquidity beside them. */
  predicate RatesCurrent(config: Configuration, r: Reserve)
    requires config.Valid() && r.Valid()
  {
    RatesOf(config, r) == InterestRates(r.liquidityRate, r.stableBorrowRate, r.variableBorrowRate)
  }

  lemma CommittedSettleCurrent(config: Configuration, core: Reserve, now: int, rewritten: bool)
    requires config.Valid() && Settleable(config, core)
    ensures var n := Committed(Settle(config, core), now, rewritten);
            n.Valid() ==> RatesCurrent(config, n)
    ensures var n := Committed(Settle(config, core), now, rewritten);
            && n.totalStableDebt == core.totalStableDebt && n.principalStableDebt == core.principalStableDebt
            && n.averageStableBorrowRate == core.averageStableBorrowRate && n.lastUpdateTimestamp == now
            && n.totalStableDebtLastUpdated == (if rewritten then now else core.totalStableDebtLastUpdated)
  {
    hide RayMul, UsageRatio, ExpectedInterestRates;
  }

  /** The average an action without stable debt recomputes is the old one, or there is no debt. */
  lemma UntouchedAverage(r: Reserve, now: int)
    requires r.Valid() && DebtsCurrent(r) && r.lastUpdateTimestamp <= now
    ensures var average := AverageStableRate(r.averageStableBorrowRate, r.totalStableDebt, 0, r.stableBorrowRate);
            TotalStableDebtAt(r.principalStableDebt, average, r.totalStableDebtLastUpdated, now) ==
            TotalStableDebtAt(r.principalStableDebt, r.averageStableBorrowRate, r.totalStableDebtLastUpdated, now)
  {
    StableDebtGrows(r.principalStableDebt, r.averageStableBorrowRate, r.totalStableDebtLastUpdated, r.lastUpdateTimestamp, now);
    if r.totalStableDebt > 0 {
      AverageUnchanged(r.averageStableBorrowRate, r.totalStableDebt, r.stableBorrowRate);
    } else {
      assert r.principalStableDebt == 0;
      CompoundedAtLeastLinear(r.averageStableBorrowRate, now, r.totalStableDebtLastUpdated);
      CompoundedAtLeastLinear(0, now, r.totalStableDebtLastUpdated);
      hide RayMul, CompoundedInterest;
      RayMulUnit(CompoundedInterest(r.averageStableBorrowRate, now, r.totalStableDebtLastUpdated));
      RayMulUnit(CompoundedInterest(0, now, r.totalStableDebtLastUpdated));
    }
  }

  lemma JustStamped(principal: int, rate: int, now: int)
    requires principal >= 0
    ensures TotalStableDebtAt(principal, rate, now, now) == principal
  {
    NoTimeNoInterest(rate, now);
    hide RayMul, CompoundedInterest;
    RayMulUnit(principal);
  }

  /** The debts and liquidity of an action, before rates and ratios follow them. */
  function Core(config: Configuration, r: Reserve, e: Event): (core: Reserve)
    requires config.Valid() && r.Valid() && Enabled(config, r, e)
  {
    var s := Accrued(r, e.time);
    var average := AverageStableRate(r.averageStableBorrowRate, r.totalStableDebt, 0, r.stableBorrowRate);
    match e.action
    case Deposit(amount) => UpdateLiquidityAndUsageRatios(s, amount, 0)
    case Withdraw(u, amount) => UpdateLiquidityAndUsageRatios(s, 0, WithdrawnAmount(r, u, amount, e.time))
    case MintUnbacked(amount) =>
      UpdateLiquidityAndUsageRatios(s.(unbacked := r.unbacked + amount), 0, 0).(averageStableBorrowRate := average)
    case BackUnbacked(supply, amount, fee, protocolFee) =>
      var backing := BackingAmount(r, amount);
      UpdateLiquidityAndUsageRatios(PayFee(s, supply, fee, protocolFee).(unbacked := r.unbacked - backing), backing + fee, 0)
      .(averageStableBorrowRate := average)
    case Borrow(amount, mode) =>
      BorrowedCore(r, UpdateLiquidityAndUsageRatios(s, 0, amount).(lastUpdateTimestamp := e.time), amount, mode)
    case Repay(u, amount, mode) =>
      var paid := RepaidAmount(r, u, amount, mode, e.time);
      RepaidCore(UpdateLiquidityAndUsageRatios(s, paid, 0), u, paid, mode).(lastUpdateTimestamp := e.time)
    case SwapRateMode(u, mode) => SwappedCore(r, UpdateLiquidityAndUsageRatios(s, 0, 0), u, mode, e.time)
  }

  lemma SupplyActionSettles(config: Configuration, r: Reserve, e: Event)
    requires config.Valid() && r.Valid() && Enabled(config, r, e)
    requires !e.action.Borrow? && !e.action.Repay? && !e.action.SwapRateMode?
    ensures Settleable(config, Core(config, r, e)) && After(config, r, e) == Settle(config, Core(config, r, e))
  {
    hide RayMul, RayDiv, UsageRatio, Settle, UpdateState, AverageStableRate, WithdrawnAmount, CumulateToLiquidityIndex,
      PercentMul, Claims;
    AccrualFrame(r, e.time);
  }

  lemma DebtActionSettles(config: Configuration, r: Reserve, e: Event)
    requires config.Valid() && r.Valid() && Enabled(config, r, e)
    requires e.action.Borrow? || e.action.Repay? || e.action.SwapRateMode?
    ensures Settleable(config, Core(config, r, e)) && After(config, r, e) == Settle(config, Core(config, r, e))
  {
    hide RayMul, RayDiv, UsageRatio, Settle, UpdateState, AverageStableRate, UserStableDebt, VariableDebtBalance,
      RepaidAmount, RepayStable, AfterBorrow, PayFee;
    AccrualFrame(r, e.time);
    match e.action
    case Borrow(amount, mode) => BorrowIsCoreThenSettle(config, r, amount, mode, e.time);
    case Repay(u, amount, mode) =>
      var paid := RepaidAmount(r, u, amount, mode, e.time);
      RepaidCoreBalanced(UpdateLiquidityAndUsageRatios(Accrued(r, e.time), paid, 0), u, paid, mode);
    case SwapRateMode(u, mode) => SwappedCoreSettleable(config, r, u, mode, e.time);
  }

  /** Every action is: accrue, move debts and liquidity, settle. */
  lemma EveryActionSettlesItsCore(config: Configuration, r: Reserve, e: Event)
    requires config.Valid() && r.Valid() && Enabled(config, r, e)
    ensures Settleable(config, Core(config, r, e)) && After(config, r, e) == Settle(config, Core(config, r, e))
  {
    hide RayMul, UsageRatio, Settle, Core, After, Enabled, Settleable;
    if e.action.Borrow? || e.action.Repay? || e.action.SwapRateMode? {
      DebtActionSettles(config, r, e);
    } else {
      SupplyActionSettles(config, r, e);
    }
  }

  lemma CoreDebtsCurrent(config: Configuration, r: Reserve, e: Event)
    requires config.Valid() && r.Valid() && Enabled(config, r, e) && DebtsCurrent(r) && Guard(r, e)
    requires Committed(Core(config, r, e), e.time, RewritesStablePrincipal(e.action)).principalStableDebt >= 0
    ensures DebtsCurrent(Committed(Core(config, r, e), e.time, RewritesStablePrincipal(e.action)))
  {
    hide RayMul, RayDiv, UsageRatio, UpdateState, AverageStableRate, UserStableDebt, VariableDebtBalance,
      RepaidAmount, WithdrawnAmount, CumulateToLiquidityIndex, PercentMul, Claims, RepayStable, TotalStableDebtAt;
    AccrualFrame(r, e.time);
    UntouchedAverage(r, e.time);
    var core := Committed(Core(config, r, e), e.time, RewritesStablePrincipal(e.action));
    JustStamped(core.principalStableDebt, core.averageStableBorrowRate, e.time);
  }

  /** After any possible action the rates are those of the new debts and liquidity, and the stable
      debt is its principal accrued to that moment. */
  lemma StepLeavesCurrent(config: Configuration, r: Reserve, e: Event, next: Reserve)
    requires Steps(config, r, e, next) && r.Valid() && DebtsCurrent(r)
    ensures config.Valid()
    ensures next.Valid() && RatesCurrent(config, next) && DebtsCurrent(next)
  {
    hide RayMul, UsageRatio, After, Core, Guard, Settle, TotalStableDebtAt, ExpectedInterestRates, RewritesStablePrincipal;
    StepFacts(config, r, e, next);
    EveryActionSettlesItsCore(config, r, e);
    var core, rewritten := Core(config, r, e), RewritesStablePrincipal(e.action);
    CommittedSettleCurrent(config, core, e.time, rewritten);
    CoreDebtsCurrent(config, r, e);
  }

  lemma StepKeepsParameters(config: Configuration, r: Reserve, e: Event, next: Reserve)
    requires Steps(config, r, e, next) && r.Valid()
    ensures next.reserveFactor == r.reserveFactor && next.marketStableRate == r.marketStableRate
  {
    hide RayMul, RayDiv, UsageRatio, After, UpdateState, AverageStableRate, UserStableDebt, VariableDebtBalance,
      RepaidAmount, WithdrawnAmount, CumulateToLiquidityIndex, PercentMul, Claims, RepayStable, ExpectedInterestRates;
    AccrualFrame(r, e.time);
    EveryActionSettlesItsCore(config, r, e);
  }

  /** In every state a run passes through, the debts are current, and from its first action on so are
      the rates; the reserve's parameters never change. */
  lemma {:induction false} RunStaysCurrent(config: Configuration, events: seq<Event>, states: seq<Reserve>, i: nat)
    requires Run(config, events, states) && states[0].Valid() && DebtsCurrent(states[0]) && i < |states|
    ensures states[i].Valid() && DebtsCurrent(states[i])
    ensures states[i].reserveFactor == states[0].reserveFactor && states[i].marketStableRate == states[0].marketStableRate
    ensures i > 0 ==> config.Valid() && RatesCurrent(config, states[i])
  {
    hide Steps, DebtsCurrent, RatesCurrent, RayMul, UsageRatio;
    if i > 0 {
      RunStaysCurrent(config, events, states, i - 1);
      assert Steps(config, states[i - 1], events[i - 1], states[i]);
      StepLeavesCurrent(config, states[i - 1], events[i - 1], states[i]);
      StepKeepsParameters(config, states[i - 1], events[i - 1], states[i]);
    }
  }

  // ---------------------------------------------------------------------------
  // Debts grow by at least their simple interest
  // ---------------------------------------------------------------------------

  lemma GrownIndex(scaled: int, index: int, factor: int, b: int, index': int)
    requires scaled >= 0 && index >= 0 && factor >= RAY + b
    requires 2 * (factor * index) + RAY < 2 * RAY * index' + 2 * RAY
    ensures 2 * RAY * (scaled * index') >= 2 * RAY * (scaled * index) + 2 * (b * (scaled * index)) - RAY * scaled
  {
    MulMono(RAY + b, factor, index);
    assert (RAY + b) * index == RAY * index + b * index;
    var low := 2 * RAY * index + 2 * (b * index) - RAY;
    MulMono(low, 2 * RAY * index', scaled);
    assert (b * index) * scaled == b * (scaled * index);
    assert low * scaled == 2 * RAY * (index * scaled) + 2 * ((b * index) * scaled) - RAY * scaled;
  }

  /** Variable debt, against the interest factor RAY + b. */
  lemma VariableGrowth(scaled: int, index: int, factor: int, b: int, index': int, tv: int, tv': int)
    requires scaled >= 0 && index >= RAY && b >= 0 && factor >= RAY + b
    requires 2 * (factor * index) + RAY < 2 * RAY * index' + 2 * RAY
    requires 2 * (scaled * index) + RAY < 2 * RAY * tv + 2 * RAY && 2 * RAY * tv <= 2 * (scaled * index) + RAY
    requires 2 * (scaled * index') + RAY < 2 * RAY * tv' + 2 * RAY
    ensures scaled <= tv
    ensures 2 * (b * tv) <= 2 * RAY * (tv' - tv) + 2 * RAY + b + tv
  {
    GrownIndex(scaled, index, factor, b, index');
    MulMono(RAY, index, scaled);
    MulMono(2 * RAY * tv - RAY, 2 * (scaled * index), b);
    GrowthFromProducts(scaled, b, tv, tv', scaled * index, scaled * index', b * (scaled * index));
  }

  lemma GrowthFromProducts(scaled: int, b: int, tv: int, tv': int, si: int, si': int, bsi: int)
    requires 2 * RAY * si' >= 2 * RAY * si + 2 * bsi - RAY * scaled && RAY * scaled <= si
    requires 2 * si + RAY < 2 * RAY * tv + 2 * RAY && 2 * RAY * tv <= 2 * si + RAY
    requires 2 * si' + RAY < 2 * RAY * tv' + 2 * RAY
    requires (2 * RAY * tv - RAY) * b <= 2 * bsi
    ensures scaled <= tv && 2 * (b * tv) <= 2 * RAY * (tv' - tv) + 2 * RAY + b + tv
  {
    assert (2 * RAY * tv - RAY) * b == 2 * RAY * (b * tv) - RAY * b;
  }

  /** What the truncated expansion can lag behind interest on interest, in parts of a ray. */
  function StableLag(rate: int, n: nat, m: nat): int {
    RAY * (m * (n + Choose2(n))) + Choose3(n) * BasePowerThree(rate) * TruncDiv(rate * m, ONE_YEAR)
  }

  lemma SquareTermGain(r: int, n: nat, m: nat, a: int, b: int, b2: int)
    requires r >= 0 && 0 <= ONE_YEAR * a <= r * n && 0 <= ONE_YEAR * b <= r * m
    requires 2 * (r * r) <= 2 * RAY * ONE_YEAR * ONE_YEAR * b2 + 2 * RAY * ONE_YEAR * ONE_YEAR
    ensures a * b <= RAY * (n * m * b2) + RAY * (n * m)
  {
    var w, p := r * r, n * m;
    ProductMonotone(ONE_YEAR * a, r * n, ONE_YEAR * b, r * m);
    assert (ONE_YEAR * a) * (ONE_YEAR * b) == ONE_YEAR * ONE_YEAR * (a * b);
    assert (r * n) * (r * m) == w * p;
    MulMono(0, n, m);
    MulMono(w, RAY * ONE_YEAR * ONE_YEAR * b2 + RAY * ONE_YEAR * ONE_YEAR, p);
    assert (RAY * ONE_YEAR * ONE_YEAR * b2 + RAY * ONE_YEAR * ONE_YEAR) * p == ONE_YEAR * ONE_YEAR * (RAY * (p * b2) + RAY * p);
  }

  lemma CubeTermGain(r: int, c: nat, m: nat, b: int, b2: int, b3: int)
    requires b2 >= 0 && ONE_YEAR * b <= r * m
    requires b2 * r <= RAY * ONE_YEAR * b3 + RAY * ONE_YEAR
    ensures b * (c * b2) <= RAY * (c * m * b3) + RAY * (c * m)
  {
    var d, k := c * b2, c * m;
    MulMono(0, c, b2);
    MulMono(0, c, m);
    MulMono(ONE_YEAR * b, r * m, d);
    assert (r * m) * d == (b2 * r) * k;
    MulMono(b2 * r, RAY * ONE_YEAR * b3 + RAY * ONE_YEAR, k);
    assert (RAY * ONE_YEAR * b3 + RAY * ONE_YEAR) * k == ONE_YEAR * (RAY * (k * b3) + RAY * k);
    assert (ONE_YEAR * b) * d == ONE_YEAR * (b * d);
  }

  /** Compounded interest grows by simple interest on what it has grown to, up to the lag. */
  lemma CompoundedGrowth(rate: int, t0: int, t1: int, t2: int)
    requires rate >= 0 && t0 <= t1 <= t2
    ensures var b := TruncDiv(rate * (t2 - t1), ONE_YEAR);
            CompoundedInterest(rate, t1, t0) * b <=
            RAY * (CompoundedInterest(rate, t2, t0) - CompoundedInterest(rate, t1, t0)) + StableLag(rate, t1 - t0, t2 - t1)
  {
    hide CompoundedInterest, BasePowerTwo, BasePowerThree, RayMul, TruncDiv, Choose2, Choose3;
    var n: nat, m: nat := t1 - t0, t2 - t1;
    BinomialForm(rate, t1, t0);
    BinomialForm(rate, t2, t0);
    BasePowersNonnegative(rate);
    BasePowersFloors(rate);
    SimpleInterestBounds(rate, n);
    SimpleInterestBounds(rate, m);
    SimpleInterestBounds(rate, n + m);
    Vandermonde(n, m);
    GrowthCombined(rate, n, m, TruncDiv(rate * n, ONE_YEAR), TruncDiv(rate * m, ONE_YEAR), TruncDiv(rate * (n + m), ONE_YEAR),
                   BasePowerTwo(rate), BasePowerThree(rate), Choose2(n), Choose3(n), Choose2(m), Choose3(m),
                   CompoundedInterest(rate, t2, t0), CompoundedInterest(rate, t1, t0));
  }

  lemma GrowthCombined(r: int, n: nat, m: nat, a: int, b: int, c: int, b2: int, b3: int,
                       c2n: nat, c3n: nat, c2m: nat, c3m: nat, whole: int, first: int)
    requires r >= 0 && b2 >= 0 && b3 >= 0
    requires 0 <= ONE_YEAR * a <= r * n && 0 <= ONE_YEAR * b <= r * m && r * (n + m) < ONE_YEAR * c + ONE_YEAR
    requires 2 * (r * r) <= 2 * RAY * ONE_YEAR * ONE_YEAR * b2 + 2 * RAY * ONE_YEAR * ONE_YEAR
    requires b2 * r <= RAY * ONE_YEAR * b3 + RAY * ONE_YEAR
    requires whole == RAY + c + (c2n + c2m + n * m) * b2 + (c3n + c3m + c2n * m + c2m * n) * b3
    requires first == RAY + a + c2n * b2 + c3n * b3
    ensures first * b <= RAY * (whole - first) + RAY * (m * (n + c2n)) + c3n * b3 * b
  {
    SquareTermGain(r, n, m, a, b, b2);
    CubeTermGain(r, c2n, m, b, b2, b3);
    assert r * (n + m) == r * n + r * m;
    assert c >= a + b;
    MulMono(0, c2m, b2);
    MulMono(0, c3m, b3);
    MulMono(0, c2m, n);
    MulMono(0, c2m * n, b3);
    Gather(c2n, c2m, n * m, b2);
    Gather(c3n, c3m, c2n * m + c2m * n, b3);
    Gather(0, c2n * m, c2m * n, b3);
    assert 0 * b3 == 0;
    assert first * b == RAY * b + a * b + b * (c2n * b2) + c3n * b3 * b;
    assert m * (n + c2n) == n * m + c2n * m;
  }

  /** Stable debt, against its interest factors before and after. */
  lemma StableGrowth(principal: int, before: int, after: int, b: int, lag: int, ts: int, ts': int)
    requires principal >= 0 && b >= 0 && lag >= 0
    requires before * b <= RAY * (after - before) + lag
    requires 2 * RAY * ts <= 2 * (before * principal) + RAY < 2 * RAY * ts + 2 * RAY
    requires 2 * (after * principal) + RAY < 2 * RAY * ts' + 2 * RAY && 2 * RAY * ts' <= 2 * (after * principal) + RAY
    ensures 2 * RAY * (b * ts) <= 2 * RAY * RAY * (ts' - ts) + 2 * RAY * RAY + 2 * (principal * lag) + RAY * b
  {
    var p0, p1 := before * principal, after * principal;
    MulMono(2 * RAY * ts, 2 * p0 + RAY, b);
    assert (2 * RAY * ts) * b == 2 * RAY * (b * ts);
    assert (2 * p0 + RAY) * b == 2 * ((before * b) * principal) + RAY * b;
    MulMono(before * b, RAY * (after - before) + lag, principal);
    assert (RAY * (after - before) + lag) * principal == RAY * (p1 - p0) + principal * lag;
  }

  // ---------------------------------------------------------------------------
  // Claims grow by at most the promised income
  // ---------------------------------------------------------------------------

  /** All claims together, against the interest factor RAY + l of the supply index. */
  lemma ClaimsGrowth(x: int, index: int, l: int, index': int, claims: int, claims': int, t: int)
    requires x >= 0 && index >= RAY && l >= 0 && 0 <= claims <= t
    requires 2 * RAY * index' <= 2 * ((RAY + l) * index) + RAY
    requires -RAY <= x * index - RAY * claims <= RAY - 2
    requires -RAY <= x * index' - RAY * claims'
    ensures 2 * RAY * (claims' - claims) <= 2 * (l * t) + 2 * l + t + 4 * RAY
  {
    MulMono(RAY, index, x);
    IndexedClaims(x, index, l, index');
    PaidOnClaims(x * index, l, t);
    GrowthOfClaims(x, x * index, x * index', l * (x * index), l * t, l, claims, claims', t);
  }

  lemma PaidOnClaims(xi: int, l: int, t: int)
    requires l >= 0 && xi <= RAY * t + RAY
    ensures l * xi <= RAY * (l * t) + RAY * l
  {
    MulMono(xi, RAY * t + RAY, l);
    assert (RAY * t + RAY) * l == RAY * (l * t) + RAY * l;
  }

  lemma GrowthOfClaims(x: int, xi: int, xi': int, lxi: int, lt: int, l: int, claims: int, claims': int, t: int)
    requires RAY * x <= xi && 0 <= claims <= t
    requires 2 * RAY * xi' <= 2 * RAY * xi + 2 * lxi + RAY * x
    requires lxi <= RAY * lt + RAY * l
    requires -RAY <= xi - RAY * claims <= RAY - 2 && -RAY <= xi' - RAY * claims'
    ensures 2 * RAY * (claims' - claims) <= 2 * lt + 2 * l + t + 4 * RAY
  {}

  lemma IndexedClaims(x: int, index: int, l: int, index': int)
    requires x >= 0 && 2 * RAY * index' <= 2 * ((RAY + l) * index) + RAY
    ensures 2 * RAY * (x * index') <= 2 * RAY * (x * index) + 2 * (l * (x * index)) + RAY * x
  {
    MulMono(2 * RAY * index', 2 * ((RAY + l) * index) + RAY, x);
    assert (2 * ((RAY + l) * index) + RAY) * x == 2 * RAY * (x * index) + 2 * (l * (x * index)) + RAY * x;
    assert (2 * RAY * index') * x == 2 * RAY * (x * index');
  }

  // ---------------------------------------------------------------------------
  // Covered
  // ---------------------------------------------------------------------------

  /** Everything the pool has or is owed. */
  function Assets(r: Reserve): int {
    r.totalLiquidity + r.TotalDebt()
  }

  /** The slack of the debt side over m seconds, in parts of RAY^2 / ONE_YEAR. */
  function DebtSlack(r: Reserve, m: nat): int
    requires r.totalStableDebtLastUpdated <= r.lastUpdateTimestamp
  {
    var bv := TruncDiv(r.variableBorrowRate * m, ONE_YEAR);
    var bs := TruncDiv(r.averageStableBorrowRate * m, ONE_YEAR);
    4 * RAY * RAY + RAY * (bv + bs + 3 * r.totalVariableDebt + 2 * r.totalStableDebt)
    + 2 * (r.principalStableDebt
           * StableLag(r.averageStableBorrowRate, r.lastUpdateTimestamp - r.totalStableDebtLastUpdated, m))
  }

  /** Interest at the current rates on the current debts, over m seconds, is at most what the debts
      grow by, up to the slack. */
  lemma DebtsEarnTheirInterest(r: Reserve, now: int)
    requires r.Valid() && DebtsCurrent(r) && r.lastUpdateTimestamp <= now
    ensures var m := now - r.lastUpdateTimestamp;
            var next := WithInterest(r, now);
            var interest := r.totalVariableDebt * r.variableBorrowRate + r.totalStableDebt * r.averageStableBorrowRate;
            2 * RAY * (interest * m) <= ONE_YEAR * (2 * RAY * RAY * (next.TotalDebt() - r.TotalDebt()) + DebtSlack(r, m))
  {
    hide RayMul, StableLag, WithInterest, TruncDiv, UsageRatio, DebtsCurrent;
    var m: nat := now - r.lastUpdateTimestamp;
    VariableInterestEarned(r, now);
    StableInterestEarned(r, now);
    var next := WithInterest(r, now);
    InterestOfBoth(r.totalVariableDebt * r.variableBorrowRate, r.totalStableDebt * r.averageStableBorrowRate, m,
                   next.totalVariableDebt - r.totalVariableDebt, next.totalStableDebt - r.totalStableDebt,
                   2 * RAY + TruncDiv(r.variableBorrowRate * m, ONE_YEAR) + 3 * r.totalVariableDebt,
                   2 * RAY * RAY + 2 * (r.principalStableDebt *
                     StableLag(r.averageStableBorrowRate, r.lastUpdateTimestamp - r.totalStableDebtLastUpdated, m))
                   + RAY * TruncDiv(r.averageStableBorrowRate * m, ONE_YEAR) + 2 * RAY * r.totalStableDebt);
  }

  lemma InterestOfBoth(x: int, y: int, m: int, dv: int, ds: int, ev: int, es: int)
    requires 2 * (x * m) <= ONE_YEAR * (2 * RAY * dv + ev)
    requires 2 * RAY * (y * m) <= ONE_YEAR * (2 * RAY * RAY * ds + es)
    ensures 2 * RAY * ((x + y) * m) <= ONE_YEAR * (2 * RAY * RAY * (dv + ds) + RAY * ev + es)
  {
    assert (x + y) * m == x * m + y * m;
  }

  lemma VariableInterestEarned(r: Reserve, now: int)
    requires r.Valid() && r.lastUpdateTimestamp <= now
    ensures var m := now - r.lastUpdateTimestamp;
            var b := TruncDiv(r.variableBorrowRate * m, ONE_YEAR);
            2 * (r.totalVariableDebt * r.variableBorrowRate * m) <=
            ONE_YEAR * (2 * RAY * (WithInterest(r, now).totalVariableDebt - r.totalVariableDebt)
                        + 2 * RAY + b + 3 * r.totalVariableDebt)
  {
    hide RayMul, TruncDiv, UsageRatio, CompoundedInterest;
    var m: nat := now - r.lastUpdateTimestamp;
    var tv, tv' := r.totalVariableDebt, WithInterest(r, now).totalVariableDebt;
    var b := TruncDiv(r.variableBorrowRate * m, ONE_YEAR);
    var factor := CompoundedInterest(r.variableBorrowRate, now, r.lastUpdateTimestamp);
    SimpleInterestBounds(r.variableBorrowRate, m);
    CompoundedAtLeastLinear(r.variableBorrowRate, now, r.lastUpdateTimestamp);
    RayMulBounds(r.scaledVariableDebt, r.variableBorrowIndex);
    if tv == 0 {
      assert WithInterest(r, now).totalVariableDebt == tv;
    } else {
      RayMulBounds(factor, r.variableBorrowIndex);
      RayMulBounds(r.scaledVariableDebt, VariableBorrowIndexAt(r, now));
      VariableGrowth(r.scaledVariableDebt, r.variableBorrowIndex, factor, b, VariableBorrowIndexAt(r, now), tv, tv');
      EarnedOverTime(tv, r.variableBorrowRate, m, b);
    }
  }

  /** A whole unit of the factor for every started one. */
  lemma EarnedOverTime(debt: int, rate: int, m: nat, b: int)
    requires debt >= 0 && rate * m < ONE_YEAR * b + ONE_YEAR
    ensures debt * rate * m <= ONE_YEAR * (b * debt + debt)
  {
    MulMono(rate * m, ONE_YEAR * b + ONE_YEAR, debt);
    assert debt * rate * m == (rate * m) * debt;
    assert (ONE_YEAR * b + ONE_YEAR) * debt == ONE_YEAR * (b * debt + debt);
  }

  lemma StableInterestEarned(r: Reserve, now: int)
    requires r.Valid() && DebtsCurrent(r) && r.lastUpdateTimestamp <= now
    ensures var m := now - r.lastUpdateTimestamp;
            var b := TruncDiv(r.averageStableBorrowRate * m, ONE_YEAR);
            var lag := StableLag(r.averageStableBorrowRate, r.lastUpdateTimestamp - r.totalStableDebtLastUpdated, m);
            2 * RAY * (r.totalStableDebt * r.averageStableBorrowRate * m) <=
            ONE_YEAR * (2 * RAY * RAY * (WithInterest(r, now).totalStableDebt - r.totalStableDebt)
                        + 2 * RAY * RAY + 2 * (r.principalStableDebt * lag) + RAY * b + 2 * RAY * r.totalStableDebt)
  {
    hide RayMul, TruncDiv, UsageRatio, CompoundedInterest, StableLag;
    var m: nat, n: nat := now - r.lastUpdateTimestamp, r.lastUpdateTimestamp - r.totalStableDebtLastUpdated;
    var rate, since := r.averageStableBorrowRate, r.totalStableDebtLastUpdated;
    var b, lag := TruncDiv(rate * m, ONE_YEAR), StableLag(rate, n, m);
    var before, after := CompoundedInterest(rate, r.lastUpdateTimestamp, since), CompoundedInterest(rate, now, since);
    SimpleInterestBounds(rate, m);
    CompoundedAtLeastLinear(rate, r.lastUpdateTimestamp, since);
    CompoundedAtLeastLinear(rate, now, since);
    CompoundedGrowth(rate, since, r.lastUpdateTimestamp, now);
    StableLagNonnegative(rate, n, m);
    RayMulBounds(before, r.principalStableDebt);
    RayMulBounds(after, r.principalStableDebt);
    StableGrowth(r.principalStableDebt, before, after, b, lag, r.totalStableDebt, WithInterest(r, now).totalStableDebt);
    EarnedOverTime(r.totalStableDebt, rate, m, b);
  }

  lemma StableLagNonnegative(rate: int, n: nat, m: nat)
    requires rate >= 0
    ensures StableLag(rate, n, m) >= 0
  {
    BasePowersNonnegative(rate);
    SimpleInterestBounds(rate, m);
    hide BasePowerThree, Choose2, Choose3, TruncDiv;
    LagNonnegative(m, n + Choose2(n), Choose3(n), BasePowerThree(rate), TruncDiv(rate * m, ONE_YEAR));
  }

  lemma LagNonnegative(m: nat, c: nat, c3: nat, b3: int, b: int)
    requires b3 >= 0 && b >= 0
    ensures RAY * (m * c) + c3 * b3 * b >= 0
  {
    MulMono(0, c, m);
    MulMono(0, c3, b3);
    MulMono(0, c3 * b3, b);
  }

  // ---------------------------------------------------------------------------
  // The claims of an accrual stay covered
  // ---------------------------------------------------------------------------

  /** How far the claims exceed the assets; covered claims make it negative. */
  function Deficit(r: Reserve, scaledSupply: int): int {
    Claims(scaledSupply, r.accruedToTreasuryScaled, r.liquidityIndex) - Assets(r)
  }

  /** One unit, in the parts the slack is counted in. */
  const SLACK_UNIT := 2 * RAY * RAY * ONE_YEAR

  /** The slack of an accrual to now of a reserve whose deficit is at most a gap. */
  function CoverageSlack(r: Reserve, gap: int, now: int): int
    requires r.totalStableDebtLastUpdated <= r.lastUpdateTimestamp <= now
  {
    var m := now - r.lastUpdateTimestamp;
    var t := Assets(r);
    var overall := OverallBorrowRate(r.totalStableDebt, r.totalVariableDebt, r.variableBorrowRate, r.averageStableBorrowRate);
    RAY * ONE_YEAR * (LiquidityIndexAt(r, now) + 2 * RAY) + RAY * RAY * ONE_YEAR + ONE_YEAR * DebtSlack(r, m)
    + m * (RAY * (2 * (RAY / WAD_RAY_RATIO) + r.TotalDebt()) + overall * t + 2 * RAY * t)
    + RAY * ONE_YEAR * IncomeSlack(r, gap, now)
  }

  /** Rounding of the income, and the income paid on the gap itself. */
  function IncomeSlack(r: Reserve, gap: int, now: int): int {
    var l := TruncDiv(r.liquidityRate * (now - r.lastUpdateTimestamp), ONE_YEAR);
    2 * (l * gap) + 2 * l + Assets(r) + gap + 4 * RAY
  }

  lemma CoverageArithmetic(g: int, k: int, minted: int, d: int, lt: int, rest: int, t: int, lrt: int, m: int, interest: int,
                           w: int, p: int, ot: int, e: int, index: int)
    requires m >= 0 && 0 <= p <= 10000 && w >= 0 && e >= 0
    requires 2 * RAY * g <= 2 * lt + rest
    requires ONE_YEAR * lt <= lrt * m
    requires 2 * RAY * 10000 * lrt <= RAY * ((2 * interest + w) * p) + 10000 * ot + 20000 * RAY * t
    requires 2 * RAY * (interest * m) <= ONE_YEAR * (2 * RAY * RAY * d + e)
    requires 10000 * minted <= d * (10000 - p) + 5000
    requires 2 * RAY * (k - minted) <= index + 2 * RAY
    ensures SLACK_UNIT * (g + k - d) <=
            RAY * ONE_YEAR * (index + 2 * RAY) + RAY * RAY * ONE_YEAR + ONE_YEAR * e
            + m * (RAY * w + ot + 2 * RAY * t) + RAY * ONE_YEAR * rest
  {
    IncomeOverTime(lrt, m, interest, w, p, ot, t);
    InterestShare(interest * m, d, e, p);
    MulMono(0, w, m);
    MulMono(p, 10000, w * m);
    MulMono(p, 10000, e);
    CoverageLinear(g, k, minted, d, lt, rest, lrt * m, interest * m * p, w * m * p, w * m, ot * m, t * m,
                   d * p, e * p, e, index);
    Weighted(m, w, ot, t);
    assert d * (10000 - p) == 10000 * d - d * p;
  }

  lemma Weighted(m: int, w: int, ot: int, t: int)
    ensures m * (RAY * w + ot + 2 * RAY * t) == RAY * (w * m) + ot * m + 2 * RAY * (t * m)
  {}

  lemma IncomeOverTime(lrt: int, m: int, interest: int, w: int, p: int, ot: int, t: int)
    requires m >= 0
    requires 2 * RAY * 10000 * lrt <= RAY * ((2 * interest + w) * p) + 10000 * ot + 20000 * RAY * t
    ensures 2 * RAY * 10000 * (lrt * m) <=
            RAY * (2 * (interest * m * p) + w * m * p) + 10000 * (ot * m) + 20000 * RAY * (t * m)
  {
    var q := (2 * interest + w) * p;
    assert q * m == 2 * (interest * m * p) + w * m * p;
    MulMono(2 * RAY * 10000 * lrt, RAY * q + 10000 * ot + 20000 * RAY * t, m);
    Weighted(m, q, 10000 * ot, 10000 * t);
    assert (10000 * ot) * m == 10000 * (ot * m) && (10000 * t) * m == 10000 * (t * m);
  }

  lemma InterestShare(im: int, d: int, e: int, p: int)
    requires p >= 0 && 2 * RAY * im <= ONE_YEAR * (2 * RAY * RAY * d + e)
    ensures 2 * RAY * (im * p) <= ONE_YEAR * (2 * RAY * RAY * (d * p) + e * p)
  {
    MulMono(2 * RAY * im, ONE_YEAR * (2 * RAY * RAY * d + e), p);
  }

  lemma CoverageLinear(g: int, k: int, minted: int, d: int, lt: int, rest: int, lrtm: int, imp: int, wmp: int, wm: int,
                       otm: int, tm: int, dp: int, ep: int, e: int, index: int)
    requires 2 * RAY * g <= 2 * lt + rest && ONE_YEAR * lt <= lrtm
    requires 2 * RAY * 10000 * lrtm <= RAY * (2 * imp + wmp) + 10000 * otm + 20000 * RAY * tm
    requires 2 * RAY * imp <= ONE_YEAR * (2 * RAY * RAY * dp + ep)
    requires wmp <= 10000 * wm && ep <= 10000 * e
    requires 10000 * minted <= 10000 * d - dp + 5000 && 2 * RAY * (k - minted) <= index + 2 * RAY
    ensures SLACK_UNIT * (g + k - d) <=
            RAY * ONE_YEAR * (index + 2 * RAY) + RAY * RAY * ONE_YEAR + ONE_YEAR * e
            + (RAY * wm + otm + 2 * RAY * tm) + RAY * ONE_YEAR * rest
  {}

  /** The treasury's claims grow by its percentage of what the debts have grown by, no more and no less
      than half an index and a unit. */
  lemma TreasuryCredit(r: Reserve, now: int)
    requires r.Valid() && DebtsCurrent(r) && r.lastUpdateTimestamp <= now
    ensures var s := Accrued(r, now);
            var d := s.TotalDebt() - r.TotalDebt();
            var minted := PercentMul(d, r.reserveFactor);
            && d >= 0 && Abs(10000 * minted - d * r.reserveFactor) <= 5000
            && 2 * RAY * Abs(RayMul(s.accruedToTreasuryScaled, s.liquidityIndex)
                             - RayMul(r.accruedToTreasuryScaled, s.liquidityIndex) - minted) <= s.liquidityIndex + 2 * RAY
  {
    hide RayMul, RayDiv, PercentMul, TruncDiv, UsageRatio, CompoundedInterest, LiquidityIndexAt, VariableBorrowIndexAt,
      TotalDebtAccrued, DebtsCurrent;
    var next := WithInterest(r, now);
    IndexesNeverFall(r, now);
    TreasuryAccrualSound(r, now);
    var d := next.TotalDebt() - r.TotalDebt();
    PercentMulBounds(d, r.reserveFactor);
    ScaledStep(r.accruedToTreasuryScaled, PercentMul(d, r.reserveFactor), next.liquidityIndex);
    if r.reserveFactor == 0 {
      assert d * r.reserveFactor == 0;
    }
  }

  /** The rates are current, or suppliers are not paid yet. */
  predicate Funded(config: Configuration, r: Reserve)
    requires config.Valid() && r.Valid()
  {
    RatesCurrent(config, r) || r.liquidityRate == 0
  }

  /** What suppliers are promised on all assets comes from the interest of the debts. */
  lemma FundedIncome(config: Configuration, r: Reserve)
    requires config.Valid() && r.Valid() && Funded(config, r) && config.reserveFactor == r.reserveFactor
    ensures var overall := OverallBorrowRate(r.totalStableDebt, r.totalVariableDebt, r.variableBorrowRate, r.averageStableBorrowRate);
            var interest := r.totalVariableDebt * r.variableBorrowRate + r.totalStableDebt * r.averageStableBorrowRate;
            2 * RAY * 10000 * (r.liquidityRate * Assets(r)) <=
            RAY * ((2 * interest + (2 * (RAY / WAD_RAY_RATIO) + r.TotalDebt())) * (10000 - r.reserveFactor))
            + 10000 * (overall * Assets(r)) + 20000 * RAY * Assets(r)
  {
    hide RayMul, PercentMul, TruncDiv, UsageRatio, ExpectedInterestRates, OverallBorrowRate;
    if RatesCurrent(config, r) {
      SuppliersPaidFromInterest(config, r.marketStableRate, r.totalStableDebt, r.totalVariableDebt, r.averageStableBorrowRate,
                                r.availableLiquidity, r.totalLiquidity);
    } else {
      OverallNonnegative(r.totalStableDebt, r.totalVariableDebt, r.variableBorrowRate, r.averageStableBorrowRate);
      NothingPromised(r.totalVariableDebt, r.variableBorrowRate, r.totalStableDebt, r.averageStableBorrowRate,
                      2 * (RAY / WAD_RAY_RATIO) + r.TotalDebt(), 10000 - r.reserveFactor,
                      OverallBorrowRate(r.totalStableDebt, r.totalVariableDebt, r.variableBorrowRate, r.averageStableBorrowRate),
                      Assets(r));
    }
  }

  lemma NothingPromised(tv: int, vr: int, ts: int, sr: int, w: int, p: int, o: int, t: int)
    requires tv >= 0 && vr >= 0 && ts >= 0 && sr >= 0 && w >= 0 && p >= 0 && o >= 0 && t >= 0
    ensures 0 <= RAY * ((2 * (tv * vr + ts * sr) + w) * p) + 10000 * (o * t) + 20000 * RAY * t
  {
    MulMono(0, tv, vr);
    MulMono(0, ts, sr);
    MulMono(0, o, t);
    MulMono(0, 2 * (tv * vr + ts * sr) + w, p);
  }

  /** Over any accrual of a reserve with debts and rates up to date: what suppliers and treasury can
      claim grows by no more than what borrowers owe, up to the slack. */
  lemma AccrualStaysCovered(config: Configuration, r: Reserve, scaledSupply: int, gap: int, now: int)
    requires config.Valid() && r.Valid() && Funded(config, r) && DebtsCurrent(r)
    requires config.reserveFactor == r.reserveFactor && r.lastUpdateTimestamp <= now && 0 <= scaledSupply
    requires Deficit(r, scaledSupply) <= gap
    ensures SLACK_UNIT * (Deficit(Accrued(r, now), scaledSupply) - Deficit(r, scaledSupply)) <= CoverageSlack(r, gap, now)
  {
    hide RayMul, PercentMul, TruncDiv, UsageRatio, Accrued, ExpectedInterestRates, OverallBorrowRate, LinearInterest, DebtSlack,
      Funded, IncomeSlack;
    var s := Accrued(r, now);
    var m: nat := now - r.lastUpdateTimestamp;
    var l, t, d := TruncDiv(r.liquidityRate * m, ONE_YEAR), Assets(r), s.TotalDebt() - r.TotalDebt();
    AccrualFrame(r, now);
    TreasuryCredit(r, now);
    DebtsEarnTheirInterest(r, now);
    DebtSlackNonnegative(r, m);
    FundedIncome(config, r);
    IncomePromised(r, scaledSupply, gap, now);
    var overall := OverallBorrowRate(r.totalStableDebt, r.totalVariableDebt, r.variableBorrowRate, r.averageStableBorrowRate);
    CoverageArithmetic(
      Claims(scaledSupply, r.accruedToTreasuryScaled, s.liquidityIndex)
      - Claims(scaledSupply, r.accruedToTreasuryScaled, r.liquidityIndex),
      RayMul(s.accruedToTreasuryScaled, s.liquidityIndex) - RayMul(r.accruedToTreasuryScaled, s.liquidityIndex),
      PercentMul(d, r.reserveFactor), d, l * t, IncomeSlack(r, gap, now), t, r.liquidityRate * t, m,
      r.totalVariableDebt * r.variableBorrowRate + r.totalStableDebt * r.averageStableBorrowRate,
      2 * (RAY / WAD_RAY_RATIO) + r.TotalDebt(), 10000 - r.reserveFactor, overall * t, DebtSlack(r, m), s.liquidityIndex);
  }

  lemma DebtSlackNonnegative(r: Reserve, m: nat)
    requires r.Valid()
    ensures DebtSlack(r, m) >= 0
  {
    SimpleInterestBounds(r.variableBorrowRate, m);
    SimpleInterestBounds(r.averageStableBorrowRate, m);
    var lag := StableLag(r.averageStableBorrowRate, r.lastUpdateTimestamp - r.totalStableDebtLastUpdated, m);
    StableLagNonnegative(r.averageStableBorrowRate, r.lastUpdateTimestamp - r.totalStableDebtLastUpdated, m);
    hide StableLag, TruncDiv, RayMul, UsageRatio;
    MulMono(0, r.principalStableDebt, lag);
  }

  /** At unchanged scaled claims, the index pays at most the liquidity rate on all assets, beside the
      rounding and the gap. */
  lemma IncomePromised(r: Reserve, scaledSupply: int, gap: int, now: int)
    requires r.Valid() && r.lastUpdateTimestamp <= now && 0 <= scaledSupply
    requires Deficit(r, scaledSupply) <= gap
    ensures var m, t := now - r.lastUpdateTimestamp, Assets(r);
            var l := TruncDiv(r.liquidityRate * m, ONE_YEAR);
            && 2 * RAY * (Claims(scaledSupply, r.accruedToTreasuryScaled, LiquidityIndexAt(r, now))
                          - Claims(scaledSupply, r.accruedToTreasuryScaled, r.liquidityIndex))
               <= 2 * (l * t) + IncomeSlack(r, gap, now)
            && ONE_YEAR * (l * t) <= (r.liquidityRate * t) * m
  {
    hide RayMul, TruncDiv, UsageRatio, Claims, LiquidityIndexAt, VariableBorrowIndexAt;
    var m: nat, t := now - r.lastUpdateTimestamp, Assets(r);
    var l, index' := TruncDiv(r.liquidityRate * m, ONE_YEAR), LiquidityIndexAt(r, now);
    var x := scaledSupply + r.accruedToTreasuryScaled;
    SimpleInterestBounds(r.liquidityRate, m);
    IndexesNeverFall(r, now);
    ClaimsBounds(scaledSupply, r.accruedToTreasuryScaled, x, r.liquidityIndex);
    ClaimsBounds(scaledSupply, r.accruedToTreasuryScaled, x, index');
    IndexPays(r, now);
    ClaimsNonnegative(scaledSupply, r.accruedToTreasuryScaled, r.liquidityIndex);
    assert t >= 0;
    hide Assets, Reserve.Valid, Reserve.Sound;
    ClaimsGrowth(x, r.liquidityIndex, l, index', Claims(scaledSupply, r.accruedToTreasuryScaled, r.liquidityIndex),
                 Claims(scaledSupply, r.accruedToTreasuryScaled, index'), t + gap);
    assert l * (t + gap) == l * t + l * gap;
    PaidOverTime(l, r.liquidityRate, m, t);
  }

  lemma PaidOverTime(l: int, rate: int, m: int, t: int)
    requires t >= 0 && ONE_YEAR * l <= rate * m
    ensures ONE_YEAR * (l * t) <= (rate * t) * m
  {
    MulMono(ONE_YEAR * l, rate * m, t);
    assert (rate * m) * t == (rate * t) * m;
  }

  lemma ClaimsNonnegative(supply: int, treasury: int, index: int)
    requires supply >= 0 && treasury >= 0 && index >= 0
    ensures Claims(supply, treasury, index) >= 0
  {
    RayMulBounds(supply, index);
    RayMulBounds(treasury, index);
  }

  lemma IndexPays(r: Reserve, now: int)
    requires r.Valid() && r.lastUpdateTimestamp <= now
    ensures var l := TruncDiv(r.liquidityRate * (now - r.lastUpdateTimestamp), ONE_YEAR);
            2 * RAY * LiquidityIndexAt(r, now) <= 2 * ((RAY + l) * r.liquidityIndex) + RAY
  {
    var l := TruncDiv(r.liquidityRate * (now - r.lastUpdateTimestamp), ONE_YEAR);
    SimpleInterestBounds(r.liquidityRate, now - r.lastUpdateTimestamp);
    RayMulBounds(RAY + l, r.liquidityIndex);
    MulMono(RAY, RAY + l, r.liquidityIndex);
    hide RayMul, TruncDiv, UsageRatio;
  }

  // ---------------------------------------------------------------------------
  // After the accrual: what an action does to claims and assets
  // ---------------------------------------------------------------------------

  /** The scaled supply after a holder's side of an action: what was added or taken, scaled. */
  function SupplyAfter(r: Reserve, scaledSupply: int, e: Event): int
    requires r.Valid() && r.lastUpdateTimestamp <= e.time
  {
    var index := Accrued(r, e.time).liquidityIndex;
    match e.action
    case Deposit(amount) => scaledSupply + RayDiv(amount, index)
    case Withdraw(u, amount) => scaledSupply - RayDiv(WithdrawnAmount(r, u, amount, e.time), index)
    case MintUnbacked(amount) => scaledSupply + RayDiv(amount, index)
    case _ => scaledSupply
  }

  /** The books of the scaled supply follow an action: no more is burnt than there is, and a backing is
      given the supply there is. */
  predicate Booked(r: Reserve, scaledSupply: int, e: Event, next: int)
    requires r.Valid() && r.lastUpdateTimestamp <= e.time
  {
    next == SupplyAfter(r, scaledSupply, e) && 0 <= next && (e.action.BackUnbacked? ==> e.action.scaledSupply == scaledSupply)
  }

  /** What an action can add to the deficit, in parts of 2 * RAY: the roundings of what it scales, and
      for a stable repayment what it erases of the stable debt beyond what was paid. */
  function ActionSlack(config: Configuration, r: Reserve, e: Event): int
    requires config.Valid() && r.Valid() && Enabled(config, r, e)
  {
    var s := Accrued(r, e.time);
    match e.action
    case BackUnbacked(supply, amount, fee, protocolFee) =>
      var before := Claims(supply, s.accruedToTreasuryScaled, s.liquidityIndex);
      2 * before + 2 * RayDiv(fee - PercentMul(fee, protocolFee), before)
      + PayFee(s, supply, fee, protocolFee).liquidityIndex + 4 * RAY
    case Borrow(amount, mode) => if mode.Stable? then 0 else s.variableBorrowIndex + 2 * RAY
    case Repay(u, amount, mode) =>
      if mode.Variable? then s.variableBorrowIndex + 2 * RAY else
      var paid := RepaidAmount(r, u, amount, mode, e.time);
      2 * RAY * (s.totalStableDebt - paid - RepayStable(s.averageStableBorrowRate, s.totalStableDebt, paid, u.stableBorrowRate).total)
    case SwapRateMode(u, mode) => s.variableBorrowIndex + 2 * RAY
    case _ => s.liquidityIndex + 2 * RAY
  }

  /** Depositing, withdrawing and minting change what can be claimed by what they change of the
      assets, up to half an index and a unit, and leave the debts as they had accrued. */
  lemma SupplySideKeepsCoverage(config: Configuration, r: Reserve, scaledSupply: int, e: Event)
    requires config.Valid() && r.Valid() && Enabled(config, r, e) && 0 <= scaledSupply
    requires e.action.Deposit? || e.action.Withdraw? || e.action.MintUnbacked?
    requires 0 <= SupplyAfter(r, scaledSupply, e)
    ensures var s := Accrued(r, e.time);
            var n := After(config, r, e);
            && n.totalStableDebt == s.totalStableDebt && n.totalVariableDebt == s.totalVariableDebt
            && n.liquidityIndex == s.liquidityIndex && n.accruedToTreasuryScaled == s.accruedToTreasuryScaled
            && Assets(n) - Assets(s) ==
               (match e.action
                case Deposit(amount) => amount
                case Withdraw(u, amount) => -WithdrawnAmount(r, u, amount, e.time)
                case MintUnbacked(amount) => amount
                case _ => 0)
            && 2 * RAY * Abs(Deficit(n, SupplyAfter(r, scaledSupply, e)) - Deficit(s, scaledSupply))
               <= n.liquidityIndex + 2 * RAY
  {
    hide RayMul, RayDiv, UsageRatio, ExpectedInterestRates, Accrued, AverageStableRate, WithdrawnAmount;
    AccrualFrame(r, e.time);
    var s := Accrued(r, e.time);
    match e.action
    case Deposit(amount) => ScaledStep(scaledSupply, amount, s.liquidityIndex);
    case MintUnbacked(amount) => ScaledStep(scaledSupply, amount, s.liquidityIndex);
    case Withdraw(u, amount) =>
      var taken := WithdrawnAmount(r, u, amount, e.time);
      ScaledStep(scaledSupply - RayDiv(taken, s.liquidityIndex), taken, s.liquidityIndex);
  }

  /** Why there is no run without slack: at an index of 1.5 the first unit deposited can be claimed as two. */
  lemma DepositCanUncover(config: Configuration, r: Reserve, now: int)
    requires Ready(config, r, now) && Accrued(r, now).liquidityIndex == RAY + HALF_RAY && 0 < now
    ensures var e := Event(Action.Deposit(1), now);
            Deficit(After(config, r, e), SupplyAfter(r, 0, e)) == Deficit(Accrued(r, now), 0) + 1
  {
    RayDivNearest(1, RAY + HALF_RAY, 1);
    RayMulNearest(1, RAY + HALF_RAY, 2);
    RayMulUnit(RAY + HALF_RAY);
    hide RayMul, RayDiv, UsageRatio, ExpectedInterestRates, Accrued, AverageStableRate;
    AccrualFrame(r, now);
  }

  lemma BackingKeepsCoverage(config: Configuration, r: Reserve, scaledSupply: int, e: Event)
    requires config.Valid() && r.Valid() && Enabled(config, r, e)
    requires e.action.BackUnbacked? && e.action.scaledSupply == scaledSupply
    ensures 2 * RAY * Abs(Deficit(After(config, r, e), scaledSupply) - Deficit(Accrued(r, e.time), scaledSupply))
            <= ActionSlack(config, r, e)
  {
    hide RayMul, RayDiv, PercentMul, UsageRatio, Accrued, Claims, AfterBackUnbacked, BackingDefined;
    var a := e.action;
    AccrualFrame(r, e.time);
    BackingConservesValue(config, r, scaledSupply, a.amount, a.fee, a.protocolFee, e.time);
    BackedIndex(config, r, e);
  }

  lemma BackedIndex(config: Configuration, r: Reserve, e: Event)
    requires config.Valid() && r.Valid() && Enabled(config, r, e) && e.action.BackUnbacked?
    ensures After(config, r, e).liquidityIndex ==
            PayFee(Accrued(r, e.time), e.action.scaledSupply, e.action.fee, e.action.protocolFee).liquidityIndex
  {
    hide RayMul, RayDiv, PercentMul, UsageRatio, Accrued, Claims, ExpectedInterestRates, AverageStableRate, CumulateToLiquidityIndex;
  }

  lemma SettlingMovesNoDeficit(config: Configuration, core: Reserve, scaledSupply: int)
    requires config.Valid() && Settleable(config, core)
    ensures Deficit(Settle(config, core), scaledSupply) == Deficit(core, scaledSupply)
  {
    hide RayMul, UsageRatio, ExpectedInterestRates;
  }

  lemma DebtCoreKeepsCoverage(config: Configuration, r: Reserve, scaledSupply: int, e: Event)
    requires config.Valid() && r.Valid() && Enabled(config, r, e)
    requires e.action.Borrow? || e.action.Repay? || e.action.SwapRateMode?
    ensures var change := Deficit(Core(config, r, e), scaledSupply) - Deficit(Accrued(r, e.time), scaledSupply);
            if e.action.Repay? && e.action.mode.Stable? then 2 * RAY * change == ActionSlack(config, r, e)
            else 2 * RAY * Abs(change) <= ActionSlack(config, r, e)
  {
    hide RayMul, RayDiv, UsageRatio, Accrued, AverageStableRate, UserStableDebt, VariableDebtBalance, RepaidAmount,
      RepayStable, Claims, PayFee, Settleable;
    AccrualFrame(r, e.time);
    var index, scaled := Accrued(r, e.time).variableBorrowIndex, r.scaledVariableDebt;
    match e.action
    case Borrow(amount, mode) => ScaledStep(scaled, amount, index);
    case Repay(u, amount, mode) =>
      if mode.Variable? {
        var paid := RepaidAmount(r, u, amount, mode, e.time);
        ScaledStep(scaled - RayDiv(paid, index), paid, index);
      }
    case SwapRateMode(u, mode) =>
      if mode.Stable? {
        ScaledStep(scaled, UserStableDebt(u, e.time), index);
      } else {
        var debt := VariableDebtBalance(r, u, e.time);
        ScaledStep(scaled - RayDiv(debt, index), debt, index);
      }
  }

  /** Borrowing, repaying and swapping change the debts by what they change of the liquidity, up to half
      an index and a unit, and a stable repayment exactly by what it does not erase. */
  lemma DebtSideKeepsCoverage(config: Configuration, r: Reserve, scaledSupply: int, e: Event)
    requires config.Valid() && r.Valid() && Enabled(config, r, e)
    requires e.action.Borrow? || e.action.Repay? || e.action.SwapRateMode?
    ensures var change := Deficit(After(config, r, e), scaledSupply) - Deficit(Accrued(r, e.time), scaledSupply);
            if e.action.Repay? && e.action.mode.Stable? then 2 * RAY * change == ActionSlack(config, r, e)
            else 2 * RAY * Abs(change) <= ActionSlack(config, r, e)
  {
    hide RayMul, UsageRatio, Accrued, After, Core, Deficit, Settle, Enabled, ActionSlack;
    EveryActionSettlesItsCore(config, r, e);
    SettlingMovesNoDeficit(config, Core(config, r, e), scaledSupply);
    DebtCoreKeepsCoverage(config, r, scaledSupply, e);
  }

  lemma ActionKeepsCoverage(config: Configuration, r: Reserve, scaledSupply: int, e: Event, nextSupply: int)
    requires config.Valid() && r.Valid() && Enabled(config, r, e)
    requires r.lastUpdateTimestamp <= e.time && 0 <= scaledSupply && Booked(r, scaledSupply, e, nextSupply)
    ensures 2 * RAY * (Deficit(After(config, r, e), nextSupply) - Deficit(Accrued(r, e.time), scaledSupply))
            <= ActionSlack(config, r, e)
  {
    hide RayMul, RayDiv, UsageRatio, Accrued, Claims, After, Enabled, Deficit;
    match e.action
    case BackUnbacked(_, _, _, _) => BackingKeepsCoverage(config, r, scaledSupply, e);
    case Borrow(_, _) => DebtSideKeepsCoverage(config, r, scaledSupply, e);
    case Repay(_, _, _) => DebtSideKeepsCoverage(config, r, scaledSupply, e);
    case SwapRateMode(_, _) => DebtSideKeepsCoverage(config, r, scaledSupply, e);
    case _ => SupplySideKeepsCoverage(config, r, scaledSupply, e);
  }

  // ---------------------------------------------------------------------------
  // Whole runs
  // ---------------------------------------------------------------------------

  /** What accruing to an action and carrying it out can add to a deficit of at most a gap. */
  function StepSlack(config: Configuration, r: Reserve, gap: int, e: Event): int
    requires config.Valid() && r.Valid() && Enabled(config, r, e)
  {
    CoverageSlack(r, gap, e.time) + RAY * ONE_YEAR * ActionSlack(config, r, e)
  }

  lemma StepStaysCovered(config: Configuration, r: Reserve, scaledSupply: int, gap: int, e: Event, next: Reserve, nextSupply: int)
    requires Steps(config, r, e, next) && r.Valid() && Funded(config, r) && DebtsCurrent(r)
    requires config.reserveFactor == r.reserveFactor
    requires r.lastUpdateTimestamp <= e.time && 0 <= scaledSupply && Booked(r, scaledSupply, e, nextSupply)
    requires Deficit(r, scaledSupply) <= gap
    ensures Enabled(config, r, e) && Deficit(next, nextSupply) <= gap + StepSlack(config, r, gap, e) / SLACK_UNIT
  {
    hide RayMul, UsageRatio, Accrued, Claims, After, Enabled, Guard, Funded, DebtsCurrent, Booked, CoverageSlack, ActionSlack;
    AccrualStaysCovered(config, r, scaledSupply, gap, e.time);
    ActionKeepsCoverage(config, r, scaledSupply, e, nextSupply);
    assert Deficit(next, nextSupply) == Deficit(After(config, r, e), nextSupply);
    hide Deficit;
    WholeUnits(Deficit(next, nextSupply) - Deficit(Accrued(r, e.time), scaledSupply),
               Deficit(Accrued(r, e.time), scaledSupply) - Deficit(r, scaledSupply),
               ActionSlack(config, r, e), CoverageSlack(r, gap, e.time));
  }

  lemma WholeUnits(a: int, b: int, x: int, y: int)
    requires 2 * RAY * a <= x && SLACK_UNIT * b <= y
    ensures a + b <= (y + RAY * ONE_YEAR * x) / SLACK_UNIT
  {
    assert SLACK_UNIT * (a + b) <= y + RAY * ONE_YEAR * x;
  }

  /** The scaled supply beside every state of a run, booked action by action. */
  ghost predicate Ledger(events: seq<Event>, states: seq<Reserve>, supplies: seq<int>) {
    && |supplies| == |states| == |events| + 1 && 0 <= supplies[0]
    && forall i :: 0 <= i < |events| ==> Follows(states[i], supplies[i], events[i], supplies[i + 1])
  }

  ghost predicate Follows(r: Reserve, scaledSupply: int, e: Event, next: int) {
    r.Valid() && r.lastUpdateTimestamp <= e.time ==> Booked(r, scaledSupply, e, next)
  }

  /** A bound on the deficit: the deficit of the start, and what each step so far can have added. */
  ghost function Uncovered(config: Configuration, events: seq<Event>, states: seq<Reserve>, supplies: seq<int>, i: nat): int
    requires Run(config, events, states) && states[0].Valid() && i < |states| == |supplies| == |events| + 1
  {
    hide RayMul, UsageRatio, Deficit, StepSlack, Enabled, Run, Reserve.Valid;
    if i == 0 then Deficit(states[0], supplies[0]) else
    var gap := Uncovered(config, events, states, supplies, i - 1);
    RunActionEnabled(config, events, states, i - 1);
    gap + StepSlack(config, states[i - 1], gap, events[i - 1]) / SLACK_UNIT
  }

  /** In every state of every run, what suppliers and treasury can claim exceeds what the pool has and is
      owed by at most what it exceeded it by at the start and the slack of every step since. */
  lemma {:induction false} RunStaysCovered(config: Configuration, events: seq<Event>, states: seq<Reserve>,
                                           supplies: seq<int>, i: nat)
    requires config.Valid() && Run(config, events, states) && states[0].Valid() && DebtsCurrent(states[0])
    requires Funded(config, states[0]) && config.reserveFactor == states[0].reserveFactor
    requires Ledger(events, states, supplies) && i < |states|
    ensures states[i].Valid() && 0 <= supplies[i]
    ensures Deficit(states[i], supplies[i]) <= Uncovered(config, events, states, supplies, i)
  {
    hide Steps, Follows, DebtsCurrent, Deficit, StepSlack, RatesCurrent, RayMul, UsageRatio, Reserve.Valid;
    if i > 0 {
      RunStaysCovered(config, events, states, supplies, i - 1);
      RunStaysCurrent(config, events, states, i - 1);
      var r, e, next := states[i - 1], events[i - 1], states[i];
      assert Steps(config, r, e, next) && Follows(r, supplies[i - 1], e, supplies[i]);
      StepFacts(config, r, e, next);
      FollowsBooks(r, supplies[i - 1], e, supplies[i]);
      StepStaysCovered(config, r, supplies[i - 1], Uncovered(config, events, states, supplies, i - 1), e, next, supplies[i]);
    }
  }

  lemma FollowsBooks(r: Reserve, scaledSupply: int, e: Event, next: int)
    requires Follows(r, scaledSupply, e, next) && r.Valid() && r.lastUpdateTimestamp <= e.time
    ensures Booked(r, scaledSupply, e, next) && 0 <= next
  {}

  /** And by any time after a state, before the next action, by at most the slack of that accrual more. */
  lemma RunStaysCoveredMeanwhile(config: Configuration, events: seq<Event>, states: seq<Reserve>, supplies: seq<int>, i: nat,
                                 now: int)
    requires config.Valid() && Run(config, events, states) && states[0].Valid() && DebtsCurrent(states[0])
    requires Funded(config, states[0]) && config.reserveFactor == states[0].reserveFactor
    requires Ledger(events, states, supplies) && i < |states| && states[i].lastUpdateTimestamp <= now
    ensures states[i].Valid()
    ensures var gap := Uncovered(config, events, states, supplies, i);
            Deficit(Accrued(states[i], now), supplies[i]) <= gap + CoverageSlack(states[i], gap, now) / SLACK_UNIT
  {
    hide Steps, Follows, DebtsCurrent, Deficit, CoverageSlack, RatesCurrent, RayMul, UsageRatio, Accrued;
    RunStaysCovered(config, events, states, supplies, i);
    RunStaysCurrent(config, events, states, i);
    var gap := Uncovered(config, events, states, supplies, i);
    AccrualStaysCovered(config, states[i], supplies[i], gap, now);
    WholeUnits(0, Deficit(Accrued(states[i], now), supplies[i]) - Deficit(states[i], supplies[i]), 0, CoverageSlack(states[i], gap, now));
  }

  lemma EmptyReserveCovered(config: Configuration, r: Reserve)
    requires config.Valid() && r.Valid() && r.totalStableDebtLastUpdated == r.lastUpdateTimestamp
    requires r.principalStableDebt == r.totalStableDebt == 0 && r.totalVariableDebt == 0 && r.totalLiquidity == 0
    requires r.liquidityRate == 0 && r.accruedToTreasuryScaled == 0
    ensures DebtsCurrent(r) && Funded(config, r) && Deficit(r, 0) == 0
  {
    JustStamped(r.principalStableDebt, r.averageStableBorrowRate, r.lastUpdateTimestamp);
    RayMulUnit(r.liquidityIndex);
    hide RayMul, TotalStableDebtAt, UsageRatio;
  }

  /** A market's fresh reserve meets all that is asked of a run's start, and its bound starts at zero. */
  lemma FreshReserveCovered(config: Configuration, marketStableRate: int)
    requires config.Valid() && 0 <= marketStableRate
    ensures var r := FreshReserve(config.reserveFactor, marketStableRate);
            && r.Valid() && DebtsCurrent(r) && Funded(config, r) && r.reserveFactor == config.reserveFactor
            && Deficit(r, 0) == 0
  {
    hide DebtsCurrent, Funded, Deficit, RayMul, UsageRatio;
    FreshReserveValid(config.reserveFactor, marketStableRate);
    EmptyReserveCovered(config, FreshReserve(config.reserveFactor, marketStableRate));
  }
}
