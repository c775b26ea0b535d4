/** Unbacked bridge supply: backing it, with a fee shared by suppliers and treasury, conserves value. */
module Bridge {
  import opened WadRayMath
  import opened Rates
  import opened StableRate
  import opened Accrual
  import opened Transitions

  /** Two rebased holdings against their exact sum, in parts of a ray. */
  lemma ClaimsBounds(supply: int, treasury: int, total: int, index: int)
    requires supply >= 0 && treasury >= 0 && index >= 0 && total == supply + treasury
    ensures -RAY <= total * index - RAY * Claims(supply, treasury, index) <= RAY - 2
  {
    RayMulBounds(supply, index);
    RayMulBounds(treasury, index);
    hide RayMul, TruncDiv;
    assert (supply + treasury) * index == supply * index + treasury * index;
  }

  /** The new index, applied to everything scaled, carries the old claims and the suppliers' part. */
  lemma CumulatedClaims(x: int, index: int, t: int, q: int, index': int, part: int)
    requires x >= 0 && index >= RAY && t > 0 && q >= 0
    requires -RAY <= x * index - RAY * t <= RAY - 2
    requires -t <= 2 * (t * q) - 2 * RAY * part <= t
    requires -RAY <= 2 * RAY * index' - 2 * ((q + RAY) * index) <= RAY
    ensures Abs(x * index' - RAY * (t + part)) <= t + q + RAY
  {
    var e1 := x * index - RAY * t;
    var e2 := 2 * RAY * index' - 2 * ((q + RAY) * index);
    var e3 := 2 * (t * q) - 2 * RAY * part;
    MulMono(RAY, index, x);
    assert x <= t;
    ExactCumulation(x, index, t, q, index', part, e1, e2, e3);
    ProductWithin(x, e2, RAY);
    ProductWithin(q + RAY, e1, RAY);
    CumulationWithin(x * index' - RAY * (t + part), e3, (q + RAY) * e1, x * e2, t, q, x);
  }

  lemma CumulationWithin(v: int, e3: int, first: int, second: int, t: int, q: int, x: int)
    requires 2 * RAY * v == RAY * e3 + 2 * first + second
    requires -t <= e3 <= t && 0 <= x <= t
    requires -((q + RAY) * RAY) <= first <= (q + RAY) * RAY && -(x * RAY) <= second <= x * RAY
    ensures Abs(v) <= t + q + RAY
  {}

  lemma ProductWithin(c: int, e: int, bound: int)
    requires c >= 0 && -bound <= e <= bound
    ensures -(c * bound) <= c * e <= c * bound
  {
    MulMono(e, bound, c);
    MulMono(-bound, e, c);
    assert (-bound) * c == -(c * bound);
  }

  lemma ExactCumulation(x: int, index: int, t: int, q: int, index': int, part: int, e1: int, e2: int, e3: int)
    requires e1 == x * index - RAY * t
    requires e2 == 2 * RAY * index' - 2 * ((q + RAY) * index)
    requires e3 == 2 * (t * q) - 2 * RAY * part
    ensures 2 * RAY * (x * index' - RAY * (t + part)) == RAY * e3 + 2 * ((q + RAY) * e1) + x * e2
  {
    var k := q + RAY;
    assert x * e2 == 2 * RAY * (x * index') - 2 * (x * (k * index));
    assert x * (k * index) == k * (x * index);
    assert k * (x * index) == k * (RAY * t + e1);
    assert k * (RAY * t + e1) == RAY * (k * t) + k * e1;
    assert k * t == t * q + RAY * t;
  }

  /** An index that was moved on by a part of what it carries, through a rounded ratio. */
  predicate Cumulated(index: int, t: int, part: int, q: int, index': int) {
    && q >= 0 && -t <= 2 * (t * q) - 2 * RAY * part <= t
    && -RAY <= 2 * RAY * index' - 2 * ((q + RAY) * index) <= RAY
  }

  /** Scaled holdings of which all but the rounding of two balances is claimed. */
  predicate Carries(x: int, index: int, claims: int) {
    -RAY <= x * index - RAY * claims <= RAY - 2
  }

  predicate Scaled(amount: int, index: int, credit: int) {
    2 * (index * credit) <= 2 * RAY * amount + index < 2 * (index * credit) + 2 * index
  }

  lemma CumulatedIndex(index: int, t: int, part: int)
    requires index >= 0 && t > 0 && part >= 0
    ensures Cumulated(index, t, part, RayDiv(part, t), CumulateToLiquidityIndex(index, t, part))
  {
    hide RayMul, RayDiv, TruncDiv;
    WadScalingCancels(part, t);
    RayDivBounds(part, t);
    RayMulBounds(RayDiv(part, t) + RAY, index);
  }

  lemma ClaimsCarried(supply: int, treasury: int, index: int)
    requires supply >= 0 && treasury >= 0 && index >= 0
    ensures Carries(supply + treasury, index, Claims(supply, treasury, index))
  {
    ClaimsBounds(supply, treasury, supply + treasury, index);
  }

  lemma CreditScaled(amount: int, index: int)
    requires amount >= 0 && index > 0
    ensures RayDiv(amount, index) >= 0 && Scaled(amount, index, RayDiv(amount, index))
  {
    RayDivBounds(amount, index);
  }

  /** What scaled holdings are worth after the index moved on: the old claims and the part. */
  predicate Grown(x: int, index': int, t: int, q: int, part: int) {
    Abs(x * index' - RAY * (t + part)) <= t + q + RAY
  }

  lemma HoldingsGrow(x: int, index: int, t: int, q: int, index': int, part: int)
    requires x >= 0 && index >= RAY && t > 0 && Carries(x, index, t) && Cumulated(index, t, part, q, index')
    ensures Grown(x, index', t, q, part)
  {
    CumulatedClaims(x, index, t, q, index', part);
  }

  lemma AfterFee(x: int, index': int, t: int, q: int, part: int, toProtocol: int, credit: int, after: int)
    requires Grown(x, index', t, q, part)
    requires Scaled(toProtocol, index', credit) && Carries(x + credit, index', after)
    ensures 2 * RAY * Abs(after - t - (part + toProtocol)) <= 2 * t + 2 * q + index' + 4 * RAY
  {
    assert (x + credit) * index' == x * index' + index' * credit;
  }

  lemma PercentRebased(fee: int, bps: int, toProtocol: int, index: int, credited: int)
    requires -5000 <= 10000 * toProtocol - fee * bps <= 5000 && 2 * RAY * Abs(credited - toProtocol) <= index + RAY
    ensures 2 * RAY * Abs(10000 * credited - fee * bps) <= 10000 * (index + 2 * RAY)
  {}

  /** Everything claimable grows by exactly the fee, up to rounding; the treasury's part of it is the
      protocol's percentage. */
  lemma FeeConserved(s: Reserve, scaledSupply: int, fee: int, protocolFee: int)
    requires s.Sound() && 0 <= scaledSupply && 0 <= fee && 0 <= protocolFee <= PERCENTAGE_FACTOR
    requires 0 < Claims(scaledSupply, s.accruedToTreasuryScaled, s.liquidityIndex)
    ensures var before := Claims(scaledSupply, s.accruedToTreasuryScaled, s.liquidityIndex);
            var p := PayFee(s, scaledSupply, fee, protocolFee);
            var after := Claims(scaledSupply, p.accruedToTreasuryScaled, p.liquidityIndex);
            var ratio := RayDiv(fee - PercentMul(fee, protocolFee), before);
            var credited := RayMul(p.accruedToTreasuryScaled - s.accruedToTreasuryScaled, p.liquidityIndex);
            && 2 * RAY * Abs(after - before - fee) <= 2 * before + 2 * ratio + p.liquidityIndex + 4 * RAY
            && 2 * RAY * Abs(10000 * credited - fee * protocolFee) <= 10000 * (p.liquidityIndex + 2 * RAY)
  {
    hide RayMul, RayDiv, PercentMul, TruncDiv, Claims, CumulateToLiquidityIndex, Cumulated, Carries, Scaled, Grown;
    var i, treasury := s.liquidityIndex, s.accruedToTreasuryScaled;
    var t, toProtocol := Claims(scaledSupply, treasury, i), PercentMul(fee, protocolFee);
    assert 0 <= toProtocol <= fee && -5000 <= 10000 * toProtocol - fee * protocolFee <= 5000 by {
      PercentMulBounds(fee, protocolFee);
    }
    var part := fee - toProtocol;
    var i' := CumulateToLiquidityIndex(i, t, part);
    var credit := RayDiv(toProtocol, i');
    ScaleThenRebase(toProtocol, i');
    PercentRebased(fee, protocolFee, toProtocol, i', RayMul(credit, i'));
    CumulatedIndex(i, t, part);
    CreditScaled(toProtocol, i');
    ClaimsCarried(scaledSupply, treasury, i);
    ClaimsCarried(scaledSupply, treasury + credit, i');
    HoldingsGrow(scaledSupply + treasury, i, t, RayDiv(part, t), i', part);
    AfterFee(scaledSupply + treasury, i', t, RayDiv(part, t), part, toProtocol, credit,
             Claims(scaledSupply, treasury + credit, i'));
  }

  /** Backing an amount with a fee: what can be claimed and what the pool has both grow by the fee. */
  lemma BackingConservesValue(config: Configuration, r: Reserve, scaledSupply: int, amount: int, fee: int,
                              protocolFee: int, now: int)
    requires Ready(config, r, now) && BackingDefined(r, scaledSupply, amount, fee, protocolFee, now)
    ensures var s := Accrued(r, now);
            var n := AfterBackUnbacked(config, r, scaledSupply, amount, fee, protocolFee, now);
            var before := Claims(scaledSupply, s.accruedToTreasuryScaled, s.liquidityIndex);
            var after := Claims(scaledSupply, n.accruedToTreasuryScaled, n.liquidityIndex);
            var ratio := RayDiv(fee - PercentMul(fee, protocolFee), before);
            && 2 * RAY * Abs(after - before - fee) <= 2 * before + 2 * ratio + n.liquidityIndex + 4 * RAY
            && n.availableLiquidity + n.unbacked == r.availableLiquidity + r.unbacked + fee
            && n.totalLiquidity == r.totalLiquidity + fee
            && n.totalStableDebt == s.totalStableDebt && n.totalVariableDebt == s.totalVariableDebt
            && n.principalStableDebt == r.principalStableDebt && n.scaledVariableDebt == r.scaledVariableDebt
            && n.averageStableBorrowRate == (if r.totalStableDebt > 0 then r.averageStableBorrowRate else 0)
            && (amount <= r.unbacked ==>
                  n.unbacked == r.unbacked - amount && n.availableLiquidity == r.availableLiquidity + amount + fee)
            && (amount >= r.unbacked ==>
                  n.unbacked == 0 && n.availableLiquidity == r.availableLiquidity + r.unbacked + fee)
            && n.liquidityIndex >= s.liquidityIndex >= r.liquidityIndex
  {
    hide RayMul, RayDiv, PercentMul, UsageRatio, ExpectedInterestRates, UpdateState, Claims, CumulateToLiquidityIndex,
      AverageStableRate;
    AccrualFrame(r, now);
    FeeConserved(Accrued(r, now), scaledSupply, fee, protocolFee);
    AverageAtRest(r);
  }

  /** Recomputing the average of untouched debt keeps it, and drops it when there is no debt. */
  lemma AverageAtRest(r: Reserve)
    requires r.Valid()
    ensures AverageStableRate(r.averageStableBorrowRate, r.totalStableDebt, 0, r.stableBorrowRate) ==
            (if r.totalStableDebt > 0 then r.averageStableBorrowRate else 0)
  {
    if r.totalStableDebt > 0 {
      AverageUnchanged(r.averageStableBorrowRate, r.totalStableDebt, r.stableBorrowRate);
    }
  }

  /** Minting unbacked supply adds to the total liquidity only, so nobody's index or debt moves. */
  lemma MintingTouchesOnlyUnbacked(config: Configuration, r: Reserve, amount: int, now: int)
    requires Ready(config, r, now) && amount >= 0
    ensures var s := Accrued(r, now);
            var n := AfterMintUnbacked(config, r, amount, now);
            && n.unbacked == r.unbacked + amount && n.availableLiquidity == r.availableLiquidity
            && n.totalLiquidity == r.totalLiquidity + amount
            && n.liquidityIndex == s.liquidityIndex && n.variableBorrowIndex == s.variableBorrowIndex
            && n.totalStableDebt == s.totalStableDebt && n.totalVariableDebt == s.totalVariableDebt
            && n.principalStableDebt == r.principalStableDebt && n.scaledVariableDebt == r.scaledVariableDebt
            && n.averageStableBorrowRate == (if r.totalStableDebt > 0 then r.averageStableBorrowRate else 0)
            && n.accruedToTreasuryScaled == s.accruedToTreasuryScaled
            && n.borrowUsageRatio == UsageRatio(s.TotalDebt(), r.availableLiquidity)
            && n.supplyUsageRatio <= UsageRatio(s.TotalDebt(), r.totalLiquidity)
  {
    hide RayMul, UsageRatio, ExpectedInterestRates, UpdateState, AverageStableRate;
    AccrualFrame(r, now);
    AverageAtRest(r);
    UsageFallsWithLiquidity(Accrued(r, now).TotalDebt(), r.totalLiquidity, r.totalLiquidity + amount);
  }
}
