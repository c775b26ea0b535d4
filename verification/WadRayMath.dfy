/** Fixed-point arithmetic over unbounded signed integers: ray multiplication and division
    with half-up rounding, percentages in basis points, and the wad/ray conversions. */
module WadRayMath {

  const RAY: int := 1_000_000_000_000_000_000_000_000_000
  const HALF_RAY: int := 500_000_000_000_000_000_000_000_000
  const WAD_RAY_RATIO: int := 1_000_000_000
  const PERCENTAGE_FACTOR: int := 10_000
  const HALF_PERCENTAGE: int := 5_000

  function Abs(x: int): (r: int)
    ensures r >= 0 && (r == x || r == -x)
  {
    if x >= 0 then x else -x
  }

  /** The big-number library's division: the quotient is rounded toward zero. */
  function TruncDiv(a: int, b: int): (q: int)
    requires b != 0
  {
    if a >= 0 then a / b else -((-a) / b)
  }

  function RayMul(a: int, b: int): int {
    TruncDiv(HALF_RAY + a * b, RAY)
  }

  function RayDiv(a: int, b: int): int
    requires b != 0
  {
    TruncDiv(TruncDiv(b, 2) + a * RAY, b)
  }

  function PercentMul(a: int, bps: int): int {
    TruncDiv(HALF_PERCENTAGE + a * bps, PERCENTAGE_FACTOR)
  }

  function RayToWad(a: int): int {
    TruncDiv(WAD_RAY_RATIO / 2 + a, WAD_RAY_RATIO)
  }

  function WadToRay(a: int): int {
    a * WAD_RAY_RATIO
  }

  function Negated(a: int): int {
    a * -1
  }

  // ---------------------------------------------------------------------------
  // Division
  // ---------------------------------------------------------------------------

  lemma MulMono(a: int, b: int, c: int)
    requires a <= b && 0 <= c
    ensures a * c <= b * c
  {}

  /** The floor of a nonnegative quotient is the one number whose multiple brackets the dividend. */
  lemma TruncDivBracket(a: int, b: int, q: int)
    requires a >= 0 && b > 0
    ensures q == TruncDiv(a, b) <==> b * q <= a < b * q + b
  {
    var t := TruncDiv(a, b);
    assert b * t <= a < b * t + b;
    if b * q <= a < b * q + b && q != t {
      if q < t {
        MulMono(q + 1, t, b);
      } else {
        MulMono(t + 1, q, b);
      }
      assert false;
    }
  }

  /** Truncation toward zero, for either sign of the dividend. */
  lemma TruncDivSigned(a: int, b: int)
    requires b > 0
    ensures a >= 0 ==> 0 <= b * TruncDiv(a, b) <= a < b * TruncDiv(a, b) + b
    ensures a <= 0 ==> b * TruncDiv(a, b) - b < a <= b * TruncDiv(a, b) <= 0
    ensures a >= 0 ==> TruncDiv(a, b) >= 0
    ensures a <= 0 ==> TruncDiv(a, b) <= 0
    ensures TruncDiv(a, b) < 0 <==> a <= -b
  {
    var n := if a >= 0 then a else -a;
    DivFacts(n, b);
    assert b * (-(n / b)) == -(b * (n / b));
  }

  lemma DivFacts(n: int, b: int)
    requires n >= 0 && b > 0
    ensures 0 <= b * (n / b) <= n < b * (n / b) + b
    ensures n / b >= 0 && (n / b >= 1 <==> n >= b)
  {
    var q := n / b;
    assert b * q <= n < b * q + b;
    if q < 0 {
      MulMono(q, -1, b);
      assert false;
    }
    MulMono(0, q, b);
    if q >= 1 {
      MulMono(1, q, b);
    }
  }

  // ---------------------------------------------------------------------------
  // Rounding: ray multiplication and division return the nearest integer, ties up
  // ---------------------------------------------------------------------------

  lemma RayMulNearest(a: int, b: int, q: int)
    requires a >= 0 && b >= 0
    ensures q == RayMul(a, b) <==> 2 * RAY * q <= 2 * (a * b) + RAY < 2 * RAY * q + 2 * RAY
  {
    MulMono(0, a, b);
    TruncDivBracket(HALF_RAY + a * b, RAY, q);
  }

  /** One formula for both parities of the divisor. */
  lemma RayDivNearest(a: int, b: int, q: int)
    requires a >= 0 && b > 0
    ensures q == RayDiv(a, b) <==> 2 * (b * q) <= 2 * RAY * a + b < 2 * (b * q) + 2 * b
  {
    var h := TruncDiv(b, 2);
    assert b == 2 * h || b == 2 * h + 1;
    TruncDivBracket(h + a * RAY, b, q);
  }

  lemma PercentMulNearest(a: int, bps: int, q: int)
    requires a >= 0 && bps >= 0
    ensures q == PercentMul(a, bps) <==> 10000 * q <= a * bps + 5000 < 10000 * q + 10000
  {
    MulMono(0, a, bps);
    TruncDivBracket(HALF_PERCENTAGE + a * bps, PERCENTAGE_FACTOR, q);
  }

  /** The two-sided error bound every later result starts from. */
  lemma RayMulBounds(a: int, b: int)
    requires a >= 0 && b >= 0
    ensures RayMul(a, b) >= 0
    ensures 2 * RAY * RayMul(a, b) <= 2 * (a * b) + RAY < 2 * RAY * RayMul(a, b) + 2 * RAY
  {
    RayMulNearest(a, b, RayMul(a, b));
    MulMono(0, a, b);
  }

  lemma RayDivBounds(a: int, b: int)
    requires a >= 0 && b > 0
    ensures RayDiv(a, b) >= 0
    ensures 2 * (b * RayDiv(a, b)) <= 2 * RAY * a + b < 2 * (b * RayDiv(a, b)) + 2 * b
  {
    var q := RayDiv(a, b);
    RayDivNearest(a, b, q);
    if q < 0 {
      MulMono(q, -1, b);
      assert false;
    }
  }

  lemma PercentMulBounds(a: int, bps: int)
    requires a >= 0 && bps >= 0
    ensures PercentMul(a, bps) >= 0
    ensures 10000 * PercentMul(a, bps) <= a * bps + 5000 < 10000 * PercentMul(a, bps) + 10000
    ensures bps <= PERCENTAGE_FACTOR ==> PercentMul(a, bps) <= a
  {
    PercentMulNearest(a, bps, PercentMul(a, bps));
    MulMono(0, a, bps);
    if bps <= PERCENTAGE_FACTOR {
      MulMono(bps, PERCENTAGE_FACTOR, a);
    }
  }

  // ---------------------------------------------------------------------------
  // Order
  // ---------------------------------------------------------------------------

  lemma RayMulMonotone(a: int, a': int, b: int, b': int)
    requires 0 <= a <= a' && 0 <= b <= b'
    ensures RayMul(a, b) <= RayMul(a', b')
  {
    RayMulBounds(a, b);
    RayMulBounds(a', b');
    hide RayMul, RayDiv, TruncDiv;
    MulMono(a, a', b);
    MulMono(b, b', a');
  }

  lemma BracketOrder(n: int, n': int, b: int, b': int, q: int, q': int)
    requires 0 <= n <= n' && 0 < b' <= b && 0 <= q'
    requires b * (2 * q) <= n + b && n' < b' * (2 * q') + b'
    ensures q <= q'
  {
    assert b * (2 * q' + 2) == b * (2 * q' + 1) + b;
    assert b' * (2 * q' + 1) == b' * (2 * q') + b';
    if q' + 1 <= q {
      MulMono(b', b, 2 * q' + 1);
      MulMono(2 * q' + 2, 2 * q, b);
      assert false;
    }
  }

  lemma RayDivBracket(a: int, b: int)
    requires a >= 0 && b > 0
    ensures RayDiv(a, b) >= 0
    ensures b * (2 * RayDiv(a, b)) <= 2 * RAY * a + b < b * (2 * RayDiv(a, b)) + 2 * b
  {
    RayDivBounds(a, b);
    hide RayMul, RayDiv, TruncDiv;
    assert b * (2 * RayDiv(a, b)) == 2 * (b * RayDiv(a, b));
  }

  /** Division grows with its numerator and shrinks with its denominator, whatever their parities. */
  lemma RayDivMonotone(a: int, a': int, b: int, b': int)
    requires 0 <= a <= a' && 0 < b' <= b
    ensures RayDiv(a, b) <= RayDiv(a', b')
  {
    hide RayMul, RayDiv, TruncDiv;
    RayDivBracket(a, b);
    RayDivBracket(a', b');
    BracketOrder(2 * RAY * a, 2 * RAY * a', b, b', RayDiv(a, b), RayDiv(a', b'));
  }

  lemma RayMulUnit(a: int)
    requires a >= 0
    ensures RayMul(RAY, a) == a && RayMul(a, RAY) == a && RayMul(0, a) == 0 && RayMul(a, 0) == 0
  {}

  /** A whole is RAY parts of itself, and a part of it is at most RAY. */
  lemma RayDivAtMostOne(a: int, b: int)
    requires 0 <= a <= b && 0 < b
    ensures 0 <= RayDiv(a, b) <= RAY
    ensures a == b ==> RayDiv(a, b) == RAY
    ensures a == 0 ==> RayDiv(a, b) == 0
  {
    RayDivBounds(a, b);
    RayDivNearest(b, b, RAY);
    RayDivNearest(0, b, 0);
    RayDivMonotone(a, b, b, b);
  }

  lemma BracketScale(n: int, b: int, q: int, k: int)
    requires k > 0 && 2 * (b * q) <= 2 * n + b < 2 * (b * q) + 2 * b
    ensures 2 * ((k * b) * q) <= 2 * (k * n) + k * b < 2 * ((k * b) * q) + 2 * (k * b)
  {
    var m := b * q;
    assert (k * b) * q == k * m;
    MulMono(2 * m, 2 * n + b, k);
    MulMono(2 * n + b + 1, 2 * m + 2 * b, k);
  }

  /** A common factor of both operands cancels, exactly and for every factor, odd or even. */
  lemma RayDivScale(a: int, b: int, k: int)
    requires a >= 0 && b > 0 && k > 0
    ensures k * b > 0 && RayDiv(k * a, k * b) == RayDiv(a, b)
  {
    hide RayMul, RayDiv, TruncDiv;
    var q := RayDiv(a, b);
    MulMono(1, b, k);
    MulMono(0, a, k);
    RayDivBounds(a, b);
    BracketScale(RAY * a, b, q, k);
    RayDivNearest(k * a, k * b, q);
    assert k * (RAY * a) == RAY * (k * a);
  }

  lemma WadScalingCancels(a: int, b: int)
    requires a >= 0 && b > 0
    ensures RayDiv(WadToRay(a), WadToRay(b)) == RayDiv(a, b)
  {
    RayDivScale(a, b, WAD_RAY_RATIO);
  }

  lemma WadRoundTrip(a: int)
    requires a >= 0
    ensures RayToWad(WadToRay(a)) == a
  {
    TruncDivBracket(WAD_RAY_RATIO / 2 + WadToRay(a), WAD_RAY_RATIO, a);
  }

  // ---------------------------------------------------------------------------
  // Round trips through an index
  // ---------------------------------------------------------------------------

  /** Scaling an amount down by an index and back up moves it by at most half an index and half a unit. */
  lemma ScaleThenRebase(a: int, i: int)
    requires a >= 0 && i > 0
    ensures 2 * RAY * Abs(RayMul(RayDiv(a, i), i) - a) <= i + RAY
  {
    RayDivBounds(a, i);
    RayMulBounds(RayDiv(a, i), i);
  }

  /** Rebasing a scaled amount and scaling it down again gives it back, once the index is at least one. */
  lemma RebaseThenScale(s: int, i: int)
    requires s >= 0 && i >= RAY
    ensures RayDiv(RayMul(s, i), i) == s
  {
    var q := RayMul(s, i);
    RayMulBounds(s, i);
    RayDivNearest(q, i, s);
    assert i * s == s * i;
    hide RayMul, RayDiv, TruncDiv;
  }

  lemma {:induction false} NoRepeatClimbs(i: int, n: nat)
    requires i > 0
    requires forall s: int :: s >= 0 ==> RayDiv(RayMul(s, i), i) == s
    ensures RayMul(n, i) >= n
  {
    if n > 0 {
      NoRepeatClimbs(i, n - 1);
      RayMulMonotone(n - 1, n, i, i);
      assert RayDiv(RayMul(n - 1, i), i) == n - 1 && RayDiv(RayMul(n, i), i) == n;
    } else {
      RayMulBounds(n, i);
    }
  }

  /** The threshold is sharp: an index below one loses some scaled balance on a full exit. */
  lemma FullExitExactIffIndexAtLeastOne(i: int)
    requires i > 0
    ensures (forall s: int :: s >= 0 ==> RayDiv(RayMul(s, i), i) == s) <==> i >= RAY
  {
    if i >= RAY {
      forall s: int | s >= 0
        ensures RayDiv(RayMul(s, i), i) == s
      {
        RebaseThenScale(s, i);
      }
    } else if forall s: int :: s >= 0 ==> RayDiv(RayMul(s, i), i) == s {
      NoRepeatClimbs(i, RAY);
      RayMulUnit(i);
      assert false;
    }
  }

  // ---------------------------------------------------------------------------
  // Sums
  // ---------------------------------------------------------------------------

  /** Rebasing two holdings separately or together differs by at most one unit. */
  lemma RayMulSplit(s: int, d: int, i: int)
    requires s >= 0 && d >= 0 && i >= 0
    ensures -1 <= RayMul(s + d, i) - RayMul(s, i) - RayMul(d, i) <= 1
  {
    RayMulBounds(s, i);
    RayMulBounds(d, i);
    RayMulBounds(s + d, i);
    assert (s + d) * i == s * i + d * i;
    hide RayMul, RayDiv, TruncDiv;
  }

  /** Adding or removing the scaled form of an amount moves a rebased balance by that amount,
      up to half an index and one unit. */
  lemma ScaledStep(s: int, a: int, i: int)
    requires s >= 0 && a >= 0 && i > 0
    ensures RayDiv(a, i) >= 0
    ensures 2 * RAY * Abs(RayMul(s + RayDiv(a, i), i) - RayMul(s, i) - a) <= i + 2 * RAY
  {
    hide RayMul, RayDiv, TruncDiv;
    var d := RayDiv(a, i);
    RayDivBounds(a, i);
    RayMulBounds(s, i);
    RayMulBounds(s + d, i);
    assert (s + d) * i == s * i + i * d;
  }

  function Sum(xs: seq<int>): (r: int)
    ensures (forall k :: 0 <= k < |xs| ==> xs[k] >= 0) ==> r >= 0
  {
    if xs == [] then 0 else Sum(xs[..|xs| - 1]) + xs[|xs| - 1]
  }

  /** The balances a holder of each scaled amount sees. */
  function Rebased(xs: seq<int>, i: int): seq<int> {
    if xs == [] then [] else Rebased(xs[..|xs| - 1], i) + [RayMul(xs[|xs| - 1], i)]
  }

  lemma SumAppend(xs: seq<int>, x: int)
    ensures Sum(xs + [x]) == Sum(xs) + x
  {
    assert (xs + [x])[..|xs|] == xs;
  }

  /** Twice the accumulated rounding of the holders' balances, in parts of a ray. */
  ghost function Drift(xs: seq<int>, i: int): int {
    2 * RAY * Sum(Rebased(xs, i)) - 2 * (Sum(xs) * i)
  }

  lemma DriftStep(xs: seq<int>, x: int, i: int)
    ensures Drift(xs + [x], i) == Drift(xs, i) + 2 * RAY * RayMul(x, i) - 2 * (x * i)
  {
    hide RayMul, TruncDiv;
    assert (xs + [x])[..|xs|] == xs;
    SumAppend(xs, x);
    SumAppend(Rebased(xs, i), RayMul(x, i));
    assert (Sum(xs) + x) * i == Sum(xs) * i + x * i;
  }

  lemma {:induction false} DriftBounds(xs: seq<int>, i: int)
    requires i >= 0
    requires forall k :: 0 <= k < |xs| ==> xs[k] >= 0
    ensures -RAY * |xs| <= Drift(xs, i) <= RAY * |xs|
    ensures |xs| > 0 ==> -RAY * |xs| < Drift(xs, i)
  {
    hide RayMul, TruncDiv;
    if xs != [] {
      hide Drift;
      var init, x := xs[..|xs| - 1], xs[|xs| - 1];
      assert xs == init + [x];
      DriftBounds(init, i);
      DriftStep(init, x, i);
      RayMulBounds(x, i);
    }
  }

  /** The sum of the holders' balances differs from the rebased total by at most half a unit a holder. */
  lemma HoldersSumToTotal(xs: seq<int>, i: int)
    requires i >= 0
    requires forall k :: 0 <= k < |xs| ==> xs[k] >= 0
    ensures 2 * Abs(Sum(Rebased(xs, i)) - RayMul(Sum(xs), i)) <= |xs|
  {
    hide RayMul, TruncDiv;
    DriftBounds(xs, i);
    if xs == [] {
      RayMulUnit(i);
    } else {
      hide Rebased, Sum;
      RayMulBounds(Sum(xs), i);
    }
  }

  lemma {:induction false} EqualHolders(n: nat)
    ensures var xs := seq(n, k => 1);
            Sum(xs) == n && Sum(Rebased(xs, RAY + HALF_RAY)) == 2 * n
  {
    var xs := seq(n, k => 1);
    if n > 0 {
      EqualHolders(n - 1);
      assert xs[..n - 1] == seq(n - 1, k => 1);
      SumAppend(Rebased(xs[..n - 1], RAY + HALF_RAY), RayMul(1, RAY + HALF_RAY));
    }
  }

  /** The bound cannot be improved: an even number of one-unit holders at index 1.5 attains it. */
  lemma HoldersBoundIsTight(n: nat)
    ensures var xs := seq(2 * n, k => 1);
            2 * Abs(Sum(Rebased(xs, RAY + HALF_RAY)) - RayMul(Sum(xs), RAY + HALF_RAY)) == |xs|
  {
    EqualHolders(2 * n);
    RayMulNearest(2 * n, RAY + HALF_RAY, 3 * n);
  }
}
