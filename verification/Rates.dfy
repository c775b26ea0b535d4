/** Usage ratios, the two-slope rate curve and the rates of a reserve. */
module Rates {
  import opened WadRayMath

  datatype Strategy = Strategy(
    optimalUsageRatio: int,
    baseVariableBorrowRate: int,
    variableRateSlope1: int,
    variableRateSlope2: int,
    stableRateSlope1: int,
    stableRateSlope2: int,
    stableRateExcessOffset: int,
    optimalStableToTotalDebtRatio: int)
  {
    predicate Valid() {
      && 0 < optimalUsageRatio <= RAY
      && 0 <= baseVariableBorrowRate
      && 0 <= variableRateSlope1 && 0 <= variableRateSlope2
      && 0 <= stableRateSlope1 && 0 <= stableRateSlope2
      && 0 <= stableRateExcessOffset
      && 0 <= optimalStableToTotalDebtRatio <= RAY
    }
  }

  datatype Configuration = Configuration(strategy: Strategy, reserveFactor: int) {
    predicate Valid() {
      strategy.Valid() && 0 <= reserveFactor <= PERCENTAGE_FACTOR
    }
  }

  datatype InterestRates = InterestRates(liquidityRate: int, stableBorrowRate: int, variableBorrowRate: int)

  /** The amounts rates are computed from: nothing negative, and the unbacked part of the
      liquidity is what the total has beyond the available part. */
  predicate Amounts(totalStableDebt: int, totalVariableDebt: int, availableLiquidity: int, totalLiquidity: int) {
    0 <= totalStableDebt && 0 <= totalVariableDebt && 0 <= availableLiquidity <= totalLiquidity
  }

  /** Debt as a share of debt plus liquidity. */
  function UsageRatio(debt: int, liquidity: int): (u: int)
    requires debt == 0 || liquidity + debt != 0
    ensures debt >= 0 && liquidity >= 0 ==> 0 <= u <= RAY
    ensures debt == 0 ==> u == 0
  {
    if debt == 0 then 0 else
      assert debt >= 0 && liquidity >= 0 ==> 0 <= RayDiv(debt, liquidity + debt) <= RAY by {
        if debt >= 0 && liquidity >= 0 {
          RayDivAtMostOne(debt, liquidity + debt);
        }
      }
      RayDiv(debt, liquidity + debt)
  }

  /** Both ratios can be computed, and the code's own assertion on them holds. Only debts that are
      negative together, which a swap can leave, may fail to. */
  predicate RatiosPass(debt: int, availableLiquidity: int, totalLiquidity: int) {
    && 0 <= availableLiquidity <= totalLiquidity
    && (debt < 0 ==>
          && availableLiquidity + debt != 0 && totalLiquidity + debt != 0
          && UsageRatio(debt, totalLiquidity) <= UsageRatio(debt, availableLiquidity))
  }

  /** The amounts the code gets through with. */
  predicate Computable(s: Strategy, totalStableDebt: int, totalVariableDebt: int, availableLiquidity: int,
                       totalLiquidity: int)
  {
    var debt := totalStableDebt + totalVariableDebt;
    && 0 <= totalVariableDebt && RatiosPass(debt, availableLiquidity, totalLiquidity)
    && (debt < 0 && UsageRatio(debt, availableLiquidity) > s.optimalUsageRatio ==> s.optimalUsageRatio < RAY)
  }

  /** The ratio is the nearest to the debt's share of debt and liquidity. */
  lemma UsageIsShareOfDebt(debt: int, liquidity: int)
    requires debt >= 0 && liquidity >= 0
    ensures 2 * Abs((liquidity + debt) * UsageRatio(debt, liquidity) - RAY * debt) <= liquidity + debt
  {
    if debt > 0 {
      RayDivBounds(debt, liquidity + debt);
    }
    hide RayDiv, TruncDiv;
  }

  /** The ratio falls as liquidity grows, which is why supply usage, counting the unbacked
      liquidity too, is never above borrow usage. */
  lemma UsageFallsWithLiquidity(debt: int, liquidity: int, liquidity': int)
    requires debt >= 0 && 0 <= liquidity <= liquidity'
    ensures UsageRatio(debt, liquidity') <= UsageRatio(debt, liquidity)
  {
    if debt > 0 {
      RayDivMonotone(debt, debt, liquidity' + debt, liquidity + debt);
    }
  }

  lemma UsageRisesWithDebt(debt: int, debt': int, liquidity: int)
    requires 0 <= debt <= debt' && 0 <= liquidity
    ensures UsageRatio(debt, liquidity) <= UsageRatio(debt', liquidity)
  {
    hide RayDiv, TruncDiv;
    if debt > 0 {
      var d, d' := liquidity + debt, liquidity + debt';
      MulMono(debt, debt', liquidity);
      assert d' * debt == liquidity * debt + debt' * debt;
      assert d * debt' == liquidity * debt' + debt' * debt;
      SharesOrdered(debt, debt', d, d');
    }
  }

  /** Two shares, brought over their common denominator. */
  lemma SharesOrdered(a: int, a': int, d: int, d': int)
    requires a >= 0 && a' >= 0 && d > 0 && d' > 0 && d' * a <= d * a'
    ensures RayDiv(a, d) <= RayDiv(a', d')
  {
    hide RayDiv, TruncDiv;
    RayDivScale(a, d, d');
    RayDivScale(a', d', d);
    assert d' * d == d * d';
    MulMono(0, a, d');
    RayDivMonotone(d' * a, d * a', d' * d, d * d');
  }

  // ---------------------------------------------------------------------------
  // The two-slope curve
  // ---------------------------------------------------------------------------

  /** What a curve with these slopes adds to its base rate at a usage ratio. */
  function Curve(slope1: int, slope2: int, optimal: int, usage: int): int
    requires 0 < optimal && (usage > optimal ==> optimal < RAY)
  {
    if usage > optimal then
      slope1 + RayMul(slope2, RayDiv(usage - optimal, RAY - optimal))
    else
      RayDiv(RayMul(slope1, usage), optimal)
  }

  predicate CurveParameters(slope1: int, slope2: int, optimal: int) {
    slope1 >= 0 && slope2 >= 0 && 0 < optimal <= RAY
  }

  /** The value at the kink, computed by the lower branch: the first slope up to rounding. */
  function KinkValue(slope1: int, optimal: int): int
    requires optimal > 0
  {
    RayDiv(RayMul(slope1, optimal), optimal)
  }

  /** The value just above the kink, at the smallest usage of the upper branch. */
  function AboveKink(slope1: int, slope2: int, optimal: int): int
    requires optimal < RAY
  {
    slope1 + RayMul(slope2, RayDiv(1, RAY - optimal))
  }

  /** A caller can check this before using the parameters. */
  predicate NoDownwardJump(slope1: int, slope2: int, optimal: int)
    requires optimal > 0
  {
    optimal >= RAY || KinkValue(slope1, optimal) <= AboveKink(slope1, slope2, optimal)
  }

  lemma LowerBranch(slope1: int, slope2: int, optimal: int, u: int, v: int)
    requires CurveParameters(slope1, slope2, optimal) && 0 <= u <= v <= optimal
    ensures 0 <= Curve(slope1, slope2, optimal, u) <= Curve(slope1, slope2, optimal, v) <= KinkValue(slope1, optimal)
  {
    hide RayMul, RayDiv, TruncDiv;
    RayMulMonotone(slope1, slope1, u, v);
    RayMulMonotone(slope1, slope1, v, optimal);
    RayMulBounds(slope1, u);
    RayDivMonotone(RayMul(slope1, u), RayMul(slope1, v), optimal, optimal);
    RayDivMonotone(RayMul(slope1, v), RayMul(slope1, optimal), optimal, optimal);
    RayDivBounds(RayMul(slope1, u), optimal);
  }

  lemma UpperBranch(slope1: int, slope2: int, optimal: int, u: int, v: int)
    requires CurveParameters(slope1, slope2, optimal) && optimal < u <= v <= RAY
    ensures AboveKink(slope1, slope2, optimal) <= Curve(slope1, slope2, optimal, u)
    ensures slope1 <= Curve(slope1, slope2, optimal, u) <= Curve(slope1, slope2, optimal, v) <= slope1 + slope2
    ensures v == RAY ==> Curve(slope1, slope2, optimal, v) == slope1 + slope2
  {
    hide RayMul, RayDiv, TruncDiv;
    var d := RAY - optimal;
    RayDivMonotone(1, u - optimal, d, d);
    RayDivMonotone(u - optimal, v - optimal, d, d);
    RayDivAtMostOne(1, d);
    RayDivAtMostOne(u - optimal, d);
    RayDivAtMostOne(v - optimal, d);
    RayMulMonotone(slope2, slope2, RayDiv(1, d), RayDiv(u - optimal, d));
    RayMulMonotone(slope2, slope2, RayDiv(u - optimal, d), RayDiv(v - optimal, d));
    RayMulMonotone(slope2, slope2, RayDiv(v - optimal, d), RAY);
    RayMulBounds(slope2, RayDiv(u - optimal, d));
    RayMulUnit(slope2);
  }

  /** Up to the optimal ratio the curve is the first slope's part of the usage, up to rounding. */
  lemma CurveBelowOptimal(slope1: int, slope2: int, optimal: int, u: int)
    requires CurveParameters(slope1, slope2, optimal) && 0 <= u <= optimal
    ensures 2 * Abs(optimal * Curve(slope1, slope2, optimal, u) - slope1 * u) <= RAY + optimal
  {
    RayMulBounds(slope1, u);
    RayDivBounds(RayMul(slope1, u), optimal);
    hide RayMul, RayDiv, TruncDiv;
  }

  /** A rounded part of a rate: scaled down to a ratio first, then applied. */
  lemma PartOfRate(rate: int, part: int, whole: int)
    requires rate >= 0 && part >= 0 && whole > 0
    ensures 2 * RAY * Abs(whole * RayMul(rate, RayDiv(part, whole)) - rate * part) <= whole * (RAY + rate)
  {
    var q := RayDiv(part, whole);
    RayDivBounds(part, whole);
    RayMulBounds(rate, q);
    hide RayMul, RayDiv, TruncDiv;
    PartArithmetic(rate, part, whole, q, RayMul(rate, q));
  }

  lemma PartArithmetic(rate: int, part: int, whole: int, q: int, m: int)
    requires rate >= 0 && whole > 0
    requires -whole <= 2 * (whole * q) - 2 * RAY * part <= whole
    requires -RAY <= 2 * RAY * m - 2 * (rate * q) <= RAY
    ensures 2 * RAY * Abs(whole * m - rate * part) <= whole * (RAY + rate)
  {
    var e, f := 2 * (whole * q) - 2 * RAY * part, 2 * RAY * m - 2 * (rate * q);
    assert 2 * RAY * (whole * m - rate * part) == whole * f + rate * e by {
      assert whole * f == 2 * RAY * (whole * m) - 2 * (whole * (rate * q));
      assert rate * e == 2 * (rate * (whole * q)) - 2 * RAY * (rate * part);
      assert whole * (rate * q) == rate * (whole * q);
    }
    MulMono(f, RAY, whole);
    MulMono(-RAY, f, whole);
    MulMono(e, whole, rate);
    MulMono(-whole, e, rate);
    assert whole * (RAY + rate) == RAY * whole + whole * rate;
    assert (-whole) * rate == -(whole * rate);
  }

  /** Above it, the first slope and the second slope's part of the usage beyond it. */
  lemma CurveAboveOptimal(slope1: int, slope2: int, optimal: int, u: int)
    requires CurveParameters(slope1, slope2, optimal) && optimal < u <= RAY
    ensures 2 * RAY * Abs((RAY - optimal) * (Curve(slope1, slope2, optimal, u) - slope1) - slope2 * (u - optimal))
            <= (RAY - optimal) * (RAY + slope2)
  {
    hide RayMul, RayDiv, TruncDiv;
    PartOfRate(slope2, u - optimal, RAY - optimal);
  }

  lemma CurveMonotone(slope1: int, slope2: int, optimal: int, u: int, v: int)
    requires CurveParameters(slope1, slope2, optimal) && NoDownwardJump(slope1, slope2, optimal)
    requires 0 <= u <= v <= RAY
    ensures Curve(slope1, slope2, optimal, u) <= Curve(slope1, slope2, optimal, v)
  {
    hide RayMul, RayDiv, TruncDiv;
    if v <= optimal {
      LowerBranch(slope1, slope2, optimal, u, v);
    } else if u > optimal {
      UpperBranch(slope1, slope2, optimal, u, v);
    } else {
      hide Curve;
      LowerBranch(slope1, slope2, optimal, u, optimal);
      LowerBranch(slope1, slope2, optimal, u, u);
      UpperBranch(slope1, slope2, optimal, v, v);
    }
  }

  /** A higher usage never gets a lower rate exactly when the curve does not jump down at its kink. */
  lemma CurveMonotoneIff(slope1: int, slope2: int, optimal: int)
    requires CurveParameters(slope1, slope2, optimal)
    ensures (forall u, v :: 0 <= u <= v <= RAY ==> Curve(slope1, slope2, optimal, u) <= Curve(slope1, slope2, optimal, v))
            <==> NoDownwardJump(slope1, slope2, optimal)
  {
    if NoDownwardJump(slope1, slope2, optimal) {
      forall u, v | 0 <= u <= v <= RAY
        ensures Curve(slope1, slope2, optimal, u) <= Curve(slope1, slope2, optimal, v)
      {
        CurveMonotone(slope1, slope2, optimal, u, v);
      }
    } else {
      hide RayMul, RayDiv, TruncDiv;
      assert Curve(slope1, slope2, optimal, optimal) > Curve(slope1, slope2, optimal, optimal + 1);
    }
  }

  /** Every usage stays within the two slopes exactly when the kink does. */
  lemma CurveBoundedIff(slope1: int, slope2: int, optimal: int)
    requires CurveParameters(slope1, slope2, optimal)
    ensures (forall u :: 0 <= u <= RAY ==> 0 <= Curve(slope1, slope2, optimal, u) <= slope1 + slope2)
            <==> KinkValue(slope1, optimal) <= slope1 + slope2
  {
    hide RayMul, RayDiv, TruncDiv;
    if KinkValue(slope1, optimal) <= slope1 + slope2 {
      forall u | 0 <= u <= RAY
        ensures 0 <= Curve(slope1, slope2, optimal, u) <= slope1 + slope2
      {
        if u <= optimal {
          LowerBranch(slope1, slope2, optimal, u, u);
        } else {
          UpperBranch(slope1, slope2, optimal, u, u);
        }
      }
    } else {
      assert Curve(slope1, slope2, optimal, optimal) > slope1 + slope2;
    }
  }

  lemma CurveNonnegative(slope1: int, slope2: int, optimal: int, u: int)
    requires CurveParameters(slope1, slope2, optimal) && 0 <= u <= RAY
    ensures 0 <= Curve(slope1, slope2, optimal, u)
  {
    if u <= optimal {
      LowerBranch(slope1, slope2, optimal, u, u);
    } else {
      UpperBranch(slope1, slope2, optimal, u, u);
    }
  }

  /** For any slope the kink misses the first slope by at most RAY / (2 * optimal) + 1 / 2. */
  lemma JumpAtKinkIsSmall(slope1: int, optimal: int)
    requires slope1 >= 0 && optimal > 0
    ensures 2 * (optimal * Abs(KinkValue(slope1, optimal) - slope1)) <= RAY + optimal
  {
    var p := RayMul(slope1, optimal);
    RayMulBounds(slope1, optimal);
    RayDivBounds(p, optimal);
    hide RayMul, RayDiv, TruncDiv;
    var k := KinkValue(slope1, optimal);
    assert optimal * (k - slope1) == optimal * k - slope1 * optimal;
    assert optimal * (slope1 - k) == slope1 * optimal - optimal * k;
  }

  /** When the product of slope and optimal ratio is a whole number of rays there is no jump at all. */
  lemma WholeProductHasNoJump(slope1: int, slope2: int, optimal: int)
    requires CurveParameters(slope1, slope2, optimal) && (slope1 * optimal) % RAY == 0
    ensures KinkValue(slope1, optimal) == slope1
    ensures NoDownwardJump(slope1, slope2, optimal)
  {
    MulMono(0, slope1, optimal);
    var p := (slope1 * optimal) / RAY;
    RayMulNearest(slope1, optimal, p);
    assert optimal * slope1 == slope1 * optimal;
    RayDivNearest(p, optimal, slope1);
    if optimal < RAY {
      RayDivBounds(1, RAY - optimal);
      RayMulBounds(slope2, RayDiv(1, RAY - optimal));
    }
  }

  // Parameters in thousandths of a ray.
  const MILLI: int := 1_000_000_000_000_000_000_000_000

  const VOLATILE_ONE := Strategy(450 * MILLI, 0, 70 * MILLI, 3000 * MILLI, 70 * MILLI, 3000 * MILLI, 50 * MILLI, 200 * MILLI)
  const STABLE_ONE := Strategy(900 * MILLI, 0, 40 * MILLI, 600 * MILLI, 5 * MILLI, 600 * MILLI, 80 * MILLI, 200 * MILLI)
  const STABLE_TWO := Strategy(800 * MILLI, 0, 40 * MILLI, 750 * MILLI, 5 * MILLI, 750 * MILLI, 80 * MILLI, 200 * MILLI)

  /** No curve of a strategy jumps down at its kink. */
  predicate Smooth(s: Strategy)
    requires s.Valid()
  {
    && NoDownwardJump(s.variableRateSlope1, s.variableRateSlope2, s.optimalUsageRatio)
    && NoDownwardJump(s.stableRateSlope1, s.stableRateSlope2, s.optimalUsageRatio)
  }

  lemma WholeProductsAreSmooth(s: Strategy)
    requires s.Valid()
    requires (s.variableRateSlope1 * s.optimalUsageRatio) % RAY == 0
    requires (s.stableRateSlope1 * s.optimalUsageRatio) % RAY == 0
    ensures Smooth(s)
  {
    hide KinkValue, NoDownwardJump;
    WholeProductHasNoJump(s.variableRateSlope1, s.variableRateSlope2, s.optimalUsageRatio);
    WholeProductHasNoJump(s.stableRateSlope1, s.stableRateSlope2, s.optimalUsageRatio);
  }

  lemma DeployedStrategiesAreSmooth(s: Strategy)
    requires s == VOLATILE_ONE || s == STABLE_ONE || s == STABLE_TWO
    ensures s.Valid() && Smooth(s)
  {
    hide KinkValue, NoDownwardJump, Smooth;
    WholeProductsAreSmooth(s);
  }

  /** A valid strategy with a smallest jump: an optimal ratio of 80%, a first slope of two units above 4%
      and a second slope of 6%. One unit of usage beyond the optimal lowers the rate. */
  const JUMPING := Strategy(800 * MILLI, 0, 40 * MILLI + 2, 60 * MILLI, 5 * MILLI, 60 * MILLI, 80 * MILLI, 200 * MILLI)

  lemma CurveCanJumpDown()
    ensures JUMPING.Valid() && !Smooth(JUMPING)
    ensures VariableBorrowRate(JUMPING, JUMPING.optimalUsageRatio + 1) < VariableBorrowRate(JUMPING, JUMPING.optimalUsageRatio)
  {
    var slope1, slope2, optimal := 40 * MILLI + 2, 60 * MILLI, 800 * MILLI;
    RayMulNearest(slope1, optimal, 32 * MILLI + 2);
    RayDivNearest(32 * MILLI + 2, optimal, slope1 + 1);
    RayDivNearest(1, RAY - optimal, 5);
    RayMulNearest(slope2, 5, 0);
  }

  // ---------------------------------------------------------------------------
  // The rates of a reserve
  // ---------------------------------------------------------------------------

  function StableDebtShare(totalStableDebt: int, totalVariableDebt: int): (share: int)
    requires totalVariableDebt >= 0
    ensures 0 <= share <= RAY
  {
    if totalStableDebt > 0 then
      RayDivAtMostOne(totalStableDebt, totalStableDebt + totalVariableDebt);
      RayDiv(totalStableDebt, totalStableDebt + totalVariableDebt)
    else 0
  }

  /** The surcharge on stable borrowing once stable debt exceeds its optimal share. */
  function ExcessStableOffset(s: Strategy, share: int): int
    requires s.Valid() && 0 <= share <= RAY
  {
    if share > s.optimalStableToTotalDebtRatio then
      RayMul(s.stableRateExcessOffset,
             RayDiv(share - s.optimalStableToTotalDebtRatio, RAY - s.optimalStableToTotalDebtRatio))
    else 0
  }

  function VariableBorrowRate(s: Strategy, usage: int): int
    requires s.Valid() && (usage > s.optimalUsageRatio ==> s.optimalUsageRatio < RAY)
  {
    s.baseVariableBorrowRate + Curve(s.variableRateSlope1, s.variableRateSlope2, s.optimalUsageRatio, usage)
  }

  function StableBorrowRate(s: Strategy, marketStableRate: int, usage: int, share: int): int
    requires s.Valid() && (usage > s.optimalUsageRatio ==> s.optimalUsageRatio < RAY) && 0 <= share <= RAY
  {
    marketStableRate + Curve(s.stableRateSlope1, s.stableRateSlope2, s.optimalUsageRatio, usage)
    + ExcessStableOffset(s, share)
  }

  /** The debt-weighted average of what borrowers pay. */
  function OverallBorrowRate(totalStableDebt: int, totalVariableDebt: int,
                             variableBorrowRate: int, averageStableBorrowRate: int): int
  {
    var totalDebt := totalStableDebt + totalVariableDebt;
    if totalDebt == 0 then 0 else
    RayDiv(RayMul(WadToRay(totalVariableDebt), variableBorrowRate)
           + RayMul(WadToRay(totalStableDebt), averageStableBorrowRate),
           WadToRay(totalDebt))
  }

  function LiquidityRate(overallRate: int, supplyUsageRatio: int, reserveFactor: int): int {
    PercentMul(RayMul(overallRate, supplyUsageRatio), PERCENTAGE_FACTOR - reserveFactor)
  }

  function ExpectedInterestRates(config: Configuration, marketStableRate: int,
                                 totalStableDebt: int, totalVariableDebt: int, averageStableBorrowRate: int,
                                 availableLiquidity: int, totalLiquidity: int): InterestRates
    requires config.Valid()
    requires Computable(config.strategy, totalStableDebt, totalVariableDebt, availableLiquidity, totalLiquidity)
  {
    var debt := totalStableDebt + totalVariableDebt;
    var variableRate := VariableBorrowRate(config.strategy, UsageRatio(debt, availableLiquidity));
    InterestRates(
      LiquidityRate(OverallBorrowRate(totalStableDebt, totalVariableDebt, variableRate, averageStableBorrowRate),
                    UsageRatio(debt, totalLiquidity), config.reserveFactor),
      StableBorrowRate(config.strategy, marketStableRate, UsageRatio(debt, availableLiquidity),
                       StableDebtShare(totalStableDebt, totalVariableDebt)),
      variableRate)
  }

  lemma VariableRateNonnegative(s: Strategy, usage: int)
    requires s.Valid() && 0 <= usage <= RAY
    ensures VariableBorrowRate(s, usage) >= s.baseVariableBorrowRate
  {
    hide RayMul, RayDiv, TruncDiv;
    CurveNonnegative(s.variableRateSlope1, s.variableRateSlope2, s.optimalUsageRatio, usage);
  }

  lemma ExcessOffsetNonnegative(s: Strategy, share: int)
    requires s.Valid() && 0 <= share <= RAY
    ensures 0 <= ExcessStableOffset(s, share) <= s.stableRateExcessOffset
  {
    hide RayMul, RayDiv, TruncDiv;
    ExcessOffsetRises(s, share, RAY);
  }

  /** The surcharge rises with the share of stable debt, from nothing up to the optimal share to the whole
      offset when all debt is stable. */
  lemma ExcessOffsetRises(s: Strategy, share: int, share': int)
    requires s.Valid() && 0 <= share <= share' <= RAY
    ensures 0 <= ExcessStableOffset(s, share) <= ExcessStableOffset(s, share') <= s.stableRateExcessOffset
    ensures share <= s.optimalStableToTotalDebtRatio ==> ExcessStableOffset(s, share) == 0
    ensures s.optimalStableToTotalDebtRatio < RAY ==> ExcessStableOffset(s, RAY) == s.stableRateExcessOffset
  {
    hide RayMul, RayDiv, TruncDiv;
    var o, k := s.optimalStableToTotalDebtRatio, s.stableRateExcessOffset;
    if o < RAY {
      RayDivAtMostOne(RAY - o, RAY - o);
      RayMulUnit(k);
    }
    if o < share' {
      RayDivAtMostOne(share' - o, RAY - o);
      RayMulBounds(k, RayDiv(share' - o, RAY - o));
      RayMulMonotone(k, k, RayDiv(share' - o, RAY - o), RAY);
    }
    if o < share {
      RayDivMonotone(share - o, share' - o, RAY - o, RAY - o);
      RayDivBounds(share - o, RAY - o);
      RayMulBounds(k, RayDiv(share - o, RAY - o));
      RayMulMonotone(k, k, RayDiv(share - o, RAY - o), RayDiv(share' - o, RAY - o));
    }
  }

  /** The share is the nearest to the stable debt's part of all debt. */
  lemma ShareIsPartOfDebt(ts: int, tv: int)
    requires ts >= 0 && tv >= 0
    ensures 2 * Abs((ts + tv) * StableDebtShare(ts, tv) - RAY * ts) <= ts + tv
    ensures ts > 0 && tv == 0 ==> StableDebtShare(ts, tv) == RAY
  {
    if ts > 0 {
      RayDivBounds(ts, ts + tv);
      RayDivAtMostOne(ts, ts + tv);
    }
    hide RayDiv, TruncDiv;
  }

  /** A rate on the two lines of a curve at some usage, up to the rounding of its branch. */
  predicate OnCurve(rate: int, slope1: int, slope2: int, optimal: int, u: int) {
    if u <= optimal then 2 * Abs(optimal * rate - slope1 * u) <= RAY + optimal
    else 2 * RAY * Abs((RAY - optimal) * (rate - slope1) - slope2 * (u - optimal)) <= (RAY - optimal) * (RAY + slope2)
  }

  /** Both borrow rates run along their own lines, from the base rate and from the market rate, at the usage
      of the available liquidity; stable debt adds its surcharge to the stable one, which itself runs along
      a line from the optimal share on. */
  lemma RatesFollowCurves(config: Configuration, marketStableRate: int, ts: int, tv: int, average: int,
                          available: int, total: int)
    requires config.Valid() && Amounts(ts, tv, available, total)
    ensures var s, u := config.strategy, UsageRatio(ts + tv, available);
            var rates := ExpectedInterestRates(config, marketStableRate, ts, tv, average, available, total);
            var allVariable := ExpectedInterestRates(config, marketStableRate, 0, ts + tv, average, available, total);
            && OnCurve(rates.variableBorrowRate - s.baseVariableBorrowRate,
                       s.variableRateSlope1, s.variableRateSlope2, s.optimalUsageRatio, u)
            && OnCurve(allVariable.stableBorrowRate - marketStableRate,
                       s.stableRateSlope1, s.stableRateSlope2, s.optimalUsageRatio, u)
            && OnCurve(rates.stableBorrowRate - allVariable.stableBorrowRate,
                       0, s.stableRateExcessOffset, s.optimalStableToTotalDebtRatio, StableDebtShare(ts, tv))
  {
    hide RayMul, RayDiv, PercentMul, TruncDiv, UsageRatio, OverallBorrowRate, LiquidityRate, Curve, OnCurve;
    var s, u := config.strategy, UsageRatio(ts + tv, available);
    LiesOnCurve(s.variableRateSlope1, s.variableRateSlope2, s.optimalUsageRatio, u);
    LiesOnCurve(s.stableRateSlope1, s.stableRateSlope2, s.optimalUsageRatio, u);
    var share, o := StableDebtShare(ts, tv), s.optimalStableToTotalDebtRatio;
    if share > o {
      PartOfRate(s.stableRateExcessOffset, share - o, RAY - o);
    }
    SurchargeOnCurve(ExcessStableOffset(s, share), s.stableRateExcessOffset, o, share);
    assert ExpectedInterestRates(config, marketStableRate, ts, tv, average, available, total).stableBorrowRate
           - ExpectedInterestRates(config, marketStableRate, 0, ts + tv, average, available, total).stableBorrowRate
           == ExcessStableOffset(s, share);
  }

  lemma SurchargeOnCurve(value: int, slope2: int, optimal: int, u: int)
    requires 0 <= u <= RAY && 0 <= optimal
    requires u <= optimal ==> value == 0
    requires u > optimal ==> 2 * RAY * Abs((RAY - optimal) * value - slope2 * (u - optimal)) <= (RAY - optimal) * (RAY + slope2)
    ensures OnCurve(value, 0, slope2, optimal, u)
  {
    assert optimal * 0 == 0 && 0 * u == 0;
  }

  lemma LiesOnCurve(slope1: int, slope2: int, optimal: int, u: int)
    requires CurveParameters(slope1, slope2, optimal) && 0 <= u <= RAY
    ensures OnCurve(Curve(slope1, slope2, optimal, u), slope1, slope2, optimal, u)
  {
    hide Curve;
    if u <= optimal {
      CurveBelowOptimal(slope1, slope2, optimal, u);
    } else {
      CurveAboveOptimal(slope1, slope2, optimal, u);
    }
  }

  /** Where the rates start: without debt the base rates are offered, and suppliers earn nothing. */
  lemma RatesWithoutDebt(config: Configuration, marketStableRate: int, average: int, available: int, total: int)
    requires config.Valid() && 0 <= available <= total
    ensures ExpectedInterestRates(config, marketStableRate, 0, 0, average, available, total) ==
            InterestRates(0, marketStableRate, config.strategy.baseVariableBorrowRate)
  {
    hide RayMul, RayDiv, PercentMul, TruncDiv;
    var s := config.strategy;
    RayMulUnit(s.variableRateSlope1);
    RayMulUnit(s.stableRateSlope1);
    RayDivAtMostOne(0, s.optimalUsageRatio);
    LiquidityRateBelowOverall(OverallBorrowRate(0, 0, s.baseVariableBorrowRate, average), 0, config.reserveFactor);
  }

  /** And where they end: with nothing left to lend both slopes apply in full, and the surcharge too when
      all debt is stable. */
  lemma RatesAtFullUsage(config: Configuration, marketStableRate: int, ts: int, tv: int, average: int, total: int)
    requires config.Valid() && ts >= 0 && tv >= 0 && ts + tv > 0 && total >= 0 && config.strategy.optimalUsageRatio < RAY
    ensures var s := config.strategy;
            var rates := ExpectedInterestRates(config, marketStableRate, ts, tv, average, 0, total);
            && rates.variableBorrowRate == s.baseVariableBorrowRate + s.variableRateSlope1 + s.variableRateSlope2
            && (ts == 0 ==> rates.stableBorrowRate == marketStableRate + s.stableRateSlope1 + s.stableRateSlope2)
            && (tv == 0 && s.optimalStableToTotalDebtRatio < RAY ==>
                  rates.stableBorrowRate ==
                  marketStableRate + s.stableRateSlope1 + s.stableRateSlope2 + s.stableRateExcessOffset)
  {
    var s := config.strategy;
    assert UsageRatio(ts + tv, 0) == RAY by { RayDivAtMostOne(ts + tv, ts + tv); }
    hide RayMul, RayDiv, PercentMul, TruncDiv, UsageRatio, OverallBorrowRate, LiquidityRate, Curve, ExcessStableOffset;
    UpperBranch(s.variableRateSlope1, s.variableRateSlope2, s.optimalUsageRatio, RAY, RAY);
    UpperBranch(s.stableRateSlope1, s.stableRateSlope2, s.optimalUsageRatio, RAY, RAY);
    ExcessOffsetRises(s, 0, RAY);
    ShareIsPartOfDebt(ts, tv);
  }

  /** With the same debts, more liquidity never raises what a borrower pays, and taking liquidity
      never lowers it. */
  lemma LiquidityLowersBorrowRates(config: Configuration, marketStableRate: int, ts: int, tv: int, average: int,
                                   available: int, total: int, available': int, total': int)
    requires config.Valid() && Smooth(config.strategy)
    requires Amounts(ts, tv, available, total) && Amounts(ts, tv, available', total') && available <= available'
    ensures var r := ExpectedInterestRates(config, marketStableRate, ts, tv, average, available, total);
            var r' := ExpectedInterestRates(config, marketStableRate, ts, tv, average, available', total');
            r'.variableBorrowRate <= r.variableBorrowRate && r'.stableBorrowRate <= r.stableBorrowRate
  {
    hide UsageRatio, Curve, NoDownwardJump, LiquidityRate, OverallBorrowRate, ExcessStableOffset;
    var s := config.strategy;
    UsageFallsWithLiquidity(ts + tv, available, available');
    var u, u' := UsageRatio(ts + tv, available), UsageRatio(ts + tv, available');
    CurveMonotone(s.variableRateSlope1, s.variableRateSlope2, s.optimalUsageRatio, u', u);
    CurveMonotone(s.stableRateSlope1, s.stableRateSlope2, s.optimalUsageRatio, u', u);
  }

  /** More debt never lowers the variable rate. */
  lemma DebtRaisesVariableRate(s: Strategy, debt: int, debt': int, available: int)
    requires s.Valid() && Smooth(s) && 0 <= debt <= debt' && 0 <= available
    ensures VariableBorrowRate(s, UsageRatio(debt, available)) <= VariableBorrowRate(s, UsageRatio(debt', available))
  {
    hide UsageRatio, Curve, NoDownwardJump;
    UsageRisesWithDebt(debt, debt', available);
    CurveMonotone(s.variableRateSlope1, s.variableRateSlope2, s.optimalUsageRatio,
                  UsageRatio(debt, available), UsageRatio(debt', available));
  }

  // ---------------------------------------------------------------------------
  // Suppliers are never promised more than borrowers pay
  // ---------------------------------------------------------------------------

  lemma OverallNonnegative(ts: int, tv: int, vr: int, sr: int)
    requires ts >= 0 && tv >= 0 && vr >= 0 && sr >= 0
    ensures OverallBorrowRate(ts, tv, vr, sr) >= 0
  {
    hide RayMul, RayDiv, TruncDiv;
    if ts + tv != 0 {
      RayMulBounds(WadToRay(tv), vr);
      RayMulBounds(WadToRay(ts), sr);
      RayDivBounds(RayMul(WadToRay(tv), vr) + RayMul(WadToRay(ts), sr), WadToRay(ts + tv));
    }
  }

  /** The overall rate on all the debt is what the two kinds of debt pay at their own rates. */
  lemma OverallRateIsWeightedAverage(ts: int, tv: int, vr: int, sr: int)
    requires ts >= 0 && tv >= 0 && vr >= 0 && sr >= 0
    ensures Abs(2 * ((ts + tv) * OverallBorrowRate(ts, tv, vr, sr)) - 2 * (tv * vr + ts * sr))
            <= 2 * (RAY / WAD_RAY_RATIO) + ts + tv
  {
    hide RayMul, RayDiv, TruncDiv;
    if ts + tv != 0 {
      var d := ts + tv;
      var w1, w2 := RayMul(WadToRay(tv), vr), RayMul(WadToRay(ts), sr);
      RayMulBounds(WadToRay(tv), vr);
      RayMulBounds(WadToRay(ts), sr);
      RayDivBounds(w1 + w2, WadToRay(d));
      var o := OverallBorrowRate(ts, tv, vr, sr);
      assert WadToRay(d) * o == WAD_RAY_RATIO * (d * o);
      assert WadToRay(tv) * vr == WAD_RAY_RATIO * (tv * vr);
      assert WadToRay(ts) * sr == WAD_RAY_RATIO * (ts * sr);
    } else {
      assert tv == 0 && ts == 0;
      assert (ts + tv) * OverallBorrowRate(ts, tv, vr, sr) == 0;
    }
  }

  lemma LiquidityRateBelowOverall(overall: int, supplyUsage: int, reserveFactor: int)
    requires overall >= 0 && 0 <= supplyUsage <= RAY && 0 <= reserveFactor <= PERCENTAGE_FACTOR
    ensures 0 <= LiquidityRate(overall, supplyUsage, reserveFactor) <= overall
    ensures supplyUsage == 0 ==> LiquidityRate(overall, supplyUsage, reserveFactor) == 0
  {
    var earned := RayMul(overall, supplyUsage);
    RayMulBounds(overall, supplyUsage);
    RayMulMonotone(overall, overall, supplyUsage, RAY);
    RayMulUnit(overall);
    PercentMulBounds(earned, PERCENTAGE_FACTOR - reserveFactor);
    hide RayMul, PercentMul, TruncDiv;
    if supplyUsage == 0 {
      assert earned == 0;
    }
  }

  /** What suppliers are promised on everything supplied and lent is the borrowers' interest less the
      reserve's share, no more and no less, up to rounding. */
  lemma SuppliersPaidFromBorrowers(overall: int, debt: int, totalLiquidity: int, reserveFactor: int)
    requires overall >= 0 && debt >= 0 && totalLiquidity >= 0 && 0 <= reserveFactor <= PERCENTAGE_FACTOR
    ensures var t := totalLiquidity + debt;
            var rate := LiquidityRate(overall, UsageRatio(debt, totalLiquidity), reserveFactor);
            Abs(2 * RAY * 10000 * (rate * t) - 2 * RAY * (overall * debt * (10000 - reserveFactor)))
            <= 10000 * (overall * t) + 20000 * RAY * t
  {
    hide RayMul, RayDiv, PercentMul, TruncDiv, UsageRatio, Nearest;
    var u, p := UsageRatio(debt, totalLiquidity), 10000 - reserveFactor;
    UsageIsShareOfDebt(debt, totalLiquidity);
    ShareNearest(totalLiquidity + debt, u, debt);
    ProductNearest(overall, u);
    PercentNearest(RayMul(overall, u), p);
    PaidArithmetic(overall, debt, totalLiquidity + debt, u, p, RayMul(overall, u), PercentMul(RayMul(overall, u), p));
  }

  /** A multiple of q within half a unit of a product. */
  predicate Nearest(unit: int, q: int, a: int, b: int) {
    -unit <= 2 * (unit * q) - 2 * (a * b) <= unit
  }

  lemma ShareNearest(t: int, u: int, debt: int)
    requires 2 * Abs(t * u - RAY * debt) <= t
    ensures Nearest(t, u, RAY, debt)
  {}

  lemma ProductNearest(a: int, b: int)
    requires a >= 0 && b >= 0
    ensures RayMul(a, b) >= 0 && Nearest(RAY, RayMul(a, b), a, b)
  {
    RayMulBounds(a, b);
  }

  lemma PercentNearest(a: int, bps: int)
    requires a >= 0 && bps >= 0
    ensures Nearest(10000, PercentMul(a, bps), a, bps)
  {
    PercentMulBounds(a, bps);
  }

  lemma PaidArithmetic(o: int, debt: int, t: int, u: int, p: int, e: int, rate: int)
    requires o >= 0 && t >= 0 && 0 <= p <= 10000
    requires Nearest(t, u, RAY, debt) && Nearest(RAY, e, o, u) && Nearest(10000, rate, e, p)
    ensures Abs(2 * RAY * 10000 * (rate * t) - 2 * RAY * (o * debt * p)) <= 10000 * (o * t) + 20000 * RAY * t
  {
    EarnedOverTheWhole(o, debt, t, u, e);
    MulMono(0, o, t);
    ShareOfEarned(e * t, o * debt, o * t, t, p);
    PercentOfEarned(e, p, rate, t);
    PaidLinear(rate * t, e * t * p, o * debt * p, o * t, t);
  }

  lemma PaidLinear(paid: int, share: int, interest: int, ot: int, t: int)
    requires -5000 * t <= 10000 * paid - share <= 5000 * t && t >= 0
    requires -(10000 * ot + 10000 * RAY * t) <= 2 * RAY * share - 2 * RAY * interest <= 10000 * ot + 10000 * RAY * t
    ensures Abs(2 * RAY * 10000 * paid - 2 * RAY * interest) <= 10000 * ot + 20000 * RAY * t
  {}

  lemma PercentOfEarned(e: int, p: int, rate: int, t: int)
    requires t >= 0 && -5000 <= 10000 * rate - e * p <= 5000
    ensures -5000 * t <= 10000 * (rate * t) - e * t * p <= 5000 * t
  {
    var f := 10000 * rate - e * p;
    MulMono(f, 5000, t);
    MulMono(-5000, f, t);
    assert f * t == 10000 * (rate * t) - e * t * p;
  }

  lemma EarnedOverTheWhole(o: int, debt: int, t: int, u: int, e: int)
    requires o >= 0 && t >= 0
    requires -t <= 2 * (t * u) - 2 * RAY * debt <= t
    requires -RAY <= 2 * RAY * e - 2 * (o * u) <= RAY
    ensures -(o * t + RAY * t) <= 2 * RAY * (e * t) - 2 * RAY * (o * debt) <= o * t + RAY * t
  {
    var f, g := 2 * RAY * e - 2 * (o * u), 2 * (t * u) - 2 * RAY * debt;
    MulMono(f, RAY, t);
    MulMono(-RAY, f, t);
    MulMono(g, t, o);
    MulMono(-t, g, o);
    assert f * t == 2 * RAY * (e * t) - 2 * (o * (t * u));
    assert g * o == 2 * (o * (t * u)) - 2 * RAY * (o * debt);
    assert t * o == o * t && (-t) * o == -(o * t);
  }

  lemma ShareOfEarned(et: int, od: int, ot: int, t: int, p: int)
    requires -(ot + RAY * t) <= 2 * RAY * et - 2 * RAY * od <= ot + RAY * t && 0 <= p <= 10000 && ot >= 0 && t >= 0
    ensures -(10000 * ot + 10000 * RAY * t) <= 2 * RAY * (et * p) - 2 * RAY * (od * p) <= 10000 * ot + 10000 * RAY * t
  {
    var f, b := 2 * RAY * et - 2 * RAY * od, ot + RAY * t;
    MulMono(f, b, p);
    MulMono(-b, f, p);
    MulMono(p, 10000, b);
    assert f * p == 2 * RAY * (et * p) - 2 * RAY * (od * p);
    assert (-b) * p == -(b * p) && b * p == p * b;
  }

  /** The same, down to the interest of the two kinds of debt at the rates just computed. */
  lemma SuppliersPaidFromInterest(config: Configuration, marketStableRate: int, ts: int, tv: int, average: int,
                                  available: int, total: int)
    requires config.Valid() && Amounts(ts, tv, available, total) && average >= 0
    ensures var rates := ExpectedInterestRates(config, marketStableRate, ts, tv, average, available, total);
            var overall := OverallBorrowRate(ts, tv, rates.variableBorrowRate, average);
            var interest := tv * rates.variableBorrowRate + ts * average;
            var t := total + (ts + tv);
            var w := 2 * (RAY / WAD_RAY_RATIO) + (ts + tv);
            && 0 <= rates.liquidityRate <= overall
            && 2 * RAY * 10000 * (rates.liquidityRate * t) <=
               RAY * ((2 * interest + w) * (10000 - config.reserveFactor)) + 10000 * (overall * t) + 20000 * RAY * t
            && 2 * RAY * 10000 * (rates.liquidityRate * t) >=
               RAY * ((2 * interest - w) * (10000 - config.reserveFactor)) - 10000 * (overall * t) - 20000 * RAY * t
  {
    hide LiquidityRate, OverallBorrowRate, UsageRatio, StableBorrowRate, VariableBorrowRate;
    var rates := ExpectedInterestRates(config, marketStableRate, ts, tv, average, available, total);
    var vr, p := rates.variableBorrowRate, 10000 - config.reserveFactor;
    VariableRateNonnegative(config.strategy, UsageRatio(ts + tv, available));
    var overall := OverallBorrowRate(ts, tv, vr, average);
    OverallNonnegative(ts, tv, vr, average);
    OverallRateIsWeightedAverage(ts, tv, vr, average);
    LiquidityRateBelowOverall(overall, UsageRatio(ts + tv, total), config.reserveFactor);
    SuppliersPaidFromBorrowers(overall, ts + tv, total, config.reserveFactor);
    InterestArithmetic(overall, ts + tv, tv * vr + ts * average, 2 * (RAY / WAD_RAY_RATIO) + (ts + tv), p,
                       rates.liquidityRate * (total + (ts + tv)),
                       10000 * (overall * (total + (ts + tv))) + 20000 * RAY * (total + (ts + tv)));
  }

  lemma InterestArithmetic(o: int, d: int, interest: int, w: int, p: int, paid: int, slack: int)
    requires p >= 0 && -w <= 2 * (d * o) - 2 * interest <= w
    requires -slack <= 2 * RAY * 10000 * paid - 2 * RAY * (o * d * p) <= slack
    ensures RAY * ((2 * interest - w) * p) - slack <= 2 * RAY * 10000 * paid <= RAY * ((2 * interest + w) * p) + slack
  {
    MulMono(2 * (d * o), 2 * interest + w, p);
    MulMono(2 * interest - w, 2 * (d * o), p);
    assert (2 * (d * o)) * p == 2 * (o * d * p);
  }
}
