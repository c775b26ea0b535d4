/** Linear interest, and compounded interest as the first four terms of a binomial expansion. */
module Interest {
  import opened WadRayMath

  const ONE_YEAR: int := 31_536_000

  function LinearInterest(rate: int, now: int, last: int): int {
    TruncDiv(rate * (now - last), ONE_YEAR) + RAY
  }

  function BasePowerTwo(rate: int): int {
    TruncDiv(RayMul(rate, rate), ONE_YEAR * ONE_YEAR)
  }

  function BasePowerThree(rate: int): int {
    TruncDiv(RayMul(BasePowerTwo(rate), rate), ONE_YEAR)
  }

  function CompoundedInterest(rate: int, now: int, last: int): int {
    var time := now - last;
    if time == 0 then RAY else
    var expMinusOne := time - 1;
    var expMinusTwo := if time > 2 then time - 2 else 0;
    var secondTerm := TruncDiv(time * expMinusOne * BasePowerTwo(rate), 2);
    var thirdTerm := TruncDiv(time * expMinusOne * expMinusTwo * BasePowerThree(rate), 6);
    RAY + TruncDiv(rate * time, ONE_YEAR) + secondTerm + thirdTerm
  }

  // ---------------------------------------------------------------------------
  // Binomial coefficients, by Pascal's rule
  // ---------------------------------------------------------------------------

  function Choose2(n: nat): nat {
    if n == 0 then 0 else Choose2(n - 1) + (n - 1)
  }

  function Choose3(n: nat): nat {
    if n == 0 then 0 else Choose3(n - 1) + Choose2(n - 1)
  }

  lemma {:induction false} ChooseClosedForms(n: nat)
    ensures n * (n - 1) == 2 * Choose2(n)
    ensures n * (n - 1) * (n - 2) == 6 * Choose3(n)
  {
    if n > 0 {
      ChooseClosedForms(n - 1);
      var p := (n - 1) * (n - 2);
      assert p == 2 * Choose2(n - 1);
      assert n * (n - 1) == p + 2 * (n - 1);
      assert n * (n - 1) * (n - 2) == n * p;
      assert (n - 1) * (n - 2) * (n - 3) == p * (n - 3) == n * p - 3 * p;
    }
  }

  lemma {:induction false} Vandermonde(n: nat, m: nat)
    ensures Choose2(n + m) == Choose2(n) + Choose2(m) + n * m
    ensures Choose3(n + m) == Choose3(n) + Choose3(m) + Choose2(n) * m + Choose2(m) * n
  {
    if m > 0 {
      Vandermonde(n, m - 1);
      var c := Choose2(n);
      assert c * m == c * (m - 1) + c;
      assert n * m == n * (m - 1) + n;
      assert (Choose2(m - 1) + (m - 1)) * n == Choose2(m - 1) * n + n * (m - 1);
    }
  }

  lemma {:induction false} ChooseMonotone(n: nat, m: nat)
    requires n <= m
    ensures Choose2(n) <= Choose2(m) && Choose3(n) <= Choose3(m)
    decreases m
  {
    if n < m {
      ChooseMonotone(n, m - 1);
    }
  }

  // ---------------------------------------------------------------------------
  // The compounded form
  // ---------------------------------------------------------------------------

  lemma TruncDivExact(x: int, b: int, k: int)
    requires x >= 0 && k > 0
    ensures b >= 0 && x == k * b ==> TruncDiv(x, k) == b
  {
    if b >= 0 && x == k * b {
      TruncDivBracket(x, k, b);
    }
  }

  lemma MultipleDivides(x: int, k: int, c: nat, b: int)
    requires k > 0 && b >= 0 && x == k * c
    ensures TruncDiv(x * b, k) == c * b
  {
    MulMono(0, c, b);
    assert x * b == k * (c * b);
    MulMono(0, c * b, k);
    TruncDivExact(x * b, c * b, k);
  }

  lemma SecondTermExact(n: nat, b2: int)
    requires b2 >= 0
    ensures TruncDiv(n * (n - 1) * b2, 2) == Choose2(n) * b2
  {
    hide TruncDiv;
    ChooseClosedForms(n);
    MultipleDivides(n * (n - 1), 2, Choose2(n), b2);
  }

  lemma ThirdTermExact(n: nat, b3: int)
    requires b3 >= 0
    ensures TruncDiv(n * (n - 1) * (if n > 2 then n - 2 else 0) * b3, 6) == Choose3(n) * b3
  {
    hide TruncDiv;
    var e := if n > 2 then n - 2 else 0;
    assert n * (n - 1) * e == 6 * Choose3(n) by {
      ChooseClosedForms(n);
      if n <= 2 {
        assert n == 0 || n == 1 || n == 2;
      }
    }
    MultipleDivides(n * (n - 1) * e, 6, Choose3(n), b3);
  }

  /** Both divisions inside the expansion are exact, also when fewer than three seconds passed. */
  lemma BinomialForm(rate: int, now: int, last: int)
    requires rate >= 0 && now >= last
    ensures var n := now - last;
            CompoundedInterest(rate, now, last) ==
            RAY + TruncDiv(rate * n, ONE_YEAR) + Choose2(n) * BasePowerTwo(rate) + Choose3(n) * BasePowerThree(rate)
  {
    var n: nat := now - last;
    BasePowersNonnegative(rate);
    hide BasePowerTwo, BasePowerThree, TruncDiv;
    SecondTermExact(n, BasePowerTwo(rate));
    ThirdTermExact(n, BasePowerThree(rate));
    if n == 0 {
      assert TruncDiv(rate * n, ONE_YEAR) == 0 by { ZeroOverYear(rate); }
    } else {
      hide Choose2, Choose3;
    }
  }

  lemma ZeroOverYear(rate: int)
    ensures TruncDiv(rate * 0, ONE_YEAR) == 0
  {}

  lemma BasePowersNonnegative(rate: int)
    requires rate >= 0
    ensures BasePowerTwo(rate) >= 0 && BasePowerThree(rate) >= 0
    ensures ONE_YEAR * ONE_YEAR * BasePowerTwo(rate) <= RayMul(rate, rate)
    ensures ONE_YEAR * BasePowerThree(rate) <= RayMul(BasePowerTwo(rate), rate)
  {
    hide RayMul;
    RayMulBounds(rate, rate);
    RayMulBounds(BasePowerTwo(rate), rate);
  }

  /** The base powers miss the powers of the rate by less than one unit each. */
  lemma BasePowersFloors(rate: int)
    requires rate >= 0
    ensures 2 * (rate * rate) <= 2 * RAY * ONE_YEAR * ONE_YEAR * BasePowerTwo(rate) + 2 * RAY * ONE_YEAR * ONE_YEAR
    ensures BasePowerTwo(rate) * rate <= RAY * ONE_YEAR * BasePowerThree(rate) + RAY * ONE_YEAR
  {
    BasePowersNonnegative(rate);
    RayMulBounds(rate, rate);
    RayMulBounds(BasePowerTwo(rate), rate);
    TruncDivSigned(RayMul(rate, rate), ONE_YEAR * ONE_YEAR);
    TruncDivSigned(RayMul(BasePowerTwo(rate), rate), ONE_YEAR);
    hide RayMul, TruncDiv;
  }

  lemma BasePowersMonotone(rate: int, rate': int)
    requires 0 <= rate <= rate'
    ensures BasePowerTwo(rate) <= BasePowerTwo(rate') && BasePowerThree(rate) <= BasePowerThree(rate')
  {
    hide RayMul;
    BasePowersNonnegative(rate);
    RayMulMonotone(rate, rate', rate, rate');
    RayMulMonotone(BasePowerTwo(rate), BasePowerTwo(rate'), rate, rate');
    RayMulBounds(rate, rate);
    RayMulBounds(BasePowerTwo(rate), rate);
  }

  lemma SimpleInterestBounds(rate: int, n: nat)
    requires rate >= 0
    ensures 0 <= ONE_YEAR * TruncDiv(rate * n, ONE_YEAR) <= rate * n
    ensures rate * n < ONE_YEAR * TruncDiv(rate * n, ONE_YEAR) + ONE_YEAR
  {
    MulMono(0, rate, n);
  }

  /** Linear interest is the rate for the time, to the unit. */
  lemma LinearToTheUnit(rate: int, now: int, last: int)
    requires rate >= 0 && now >= last
    ensures var interest := LinearInterest(rate, now, last) - RAY;
            ONE_YEAR * interest <= rate * (now - last) < ONE_YEAR * interest + ONE_YEAR
  {
    SimpleInterestBounds(rate, now - last);
  }

  /** Interest never shrinks a balance, and compounding pays at least what simple interest pays. */
  lemma CompoundedAtLeastLinear(rate: int, now: int, last: int)
    requires rate >= 0 && now >= last
    ensures RAY <= LinearInterest(rate, now, last) <= CompoundedInterest(rate, now, last)
  {
    var n := now - last;
    SimpleInterestBounds(rate, n);
    BinomialForm(rate, now, last);
    BasePowersNonnegative(rate);
    MulMono(0, Choose2(n), BasePowerTwo(rate));
    MulMono(0, Choose3(n), BasePowerThree(rate));
    hide RayMul, BasePowerTwo, BasePowerThree, CompoundedInterest;
  }

  lemma LinearMonotone(rate: int, now: int, now': int, last: int)
    requires rate >= 0 && last <= now <= now'
    ensures LinearInterest(rate, now, last) <= LinearInterest(rate, now', last)
  {
    MulMono(now - last, now' - last, rate);
    SimpleInterestBounds(rate, now - last);
    SimpleInterestBounds(rate, now' - last);
  }

  /** More time and a higher rate each compound to at least as much. */
  lemma CompoundedMonotone(rate: int, rate': int, now: int, now': int, last: int)
    requires 0 <= rate <= rate' && last <= now <= now'
    ensures CompoundedInterest(rate, now, last) <= CompoundedInterest(rate', now', last)
  {
    hide RayMul, BasePowerTwo, BasePowerThree, CompoundedInterest;
    var n, m := now - last, now' - last;
    BinomialForm(rate, now, last);
    BinomialForm(rate', now', last);
    ChooseMonotone(n, m);
    BasePowersNonnegative(rate);
    BasePowersMonotone(rate, rate');
    ProductMonotone(rate, rate', n, m);
    ProductMonotone(Choose2(n), Choose2(m), BasePowerTwo(rate), BasePowerTwo(rate'));
    ProductMonotone(Choose3(n), Choose3(m), BasePowerThree(rate), BasePowerThree(rate'));
    SimpleInterestBounds(rate, n);
    SimpleInterestBounds(rate', m);
  }

  /** What compounding pays beyond simple interest. */
  function InterestOnInterest(rate: int, n: nat): int {
    Choose2(n) * BasePowerTwo(rate) + Choose3(n) * BasePowerThree(rate)
  }

  lemma CompoundedIsLinearAndMore(rate: int, now: int, last: int)
    requires rate >= 0 && last <= now
    ensures CompoundedInterest(rate, now, last) == LinearInterest(rate, now, last) + InterestOnInterest(rate, now - last)
  {
    hide BasePowerTwo, BasePowerThree, CompoundedInterest, TruncDiv;
    BinomialForm(rate, now, last);
  }

  lemma InterestOnInterestGrows(rate: int, n: nat, m: nat)
    requires rate >= 0 && n <= m
    ensures 0 <= InterestOnInterest(rate, n) <= InterestOnInterest(rate, m)
  {
    hide BasePowerTwo, BasePowerThree, Choose2, Choose3;
    ChooseMonotone(n, m);
    BasePowersNonnegative(rate);
    ProductMonotone(Choose2(n), Choose2(m), BasePowerTwo(rate), BasePowerTwo(rate));
    ProductMonotone(Choose3(n), Choose3(m), BasePowerThree(rate), BasePowerThree(rate));
  }

  lemma ProductMonotone(a: int, a': int, b: int, b': int)
    requires 0 <= a <= a' && 0 <= b <= b'
    ensures 0 <= a * b <= a' * b'
  {
    MulMono(a, a', b);
    MulMono(b, b', a');
  }

  lemma NoTimeNoInterest(rate: int, t: int)
    ensures LinearInterest(rate, t, t) == RAY && CompoundedInterest(rate, t, t) == RAY
  {}

  lemma NoRateNoInterest(now: int, last: int)
    requires now >= last
    ensures LinearInterest(0, now, last) == RAY && CompoundedInterest(0, now, last) == RAY
  {
    BinomialForm(0, now, last);
  }

  // ---------------------------------------------------------------------------
  // The approximation never overcharges
  // ---------------------------------------------------------------------------

  function Power(x: real, n: nat): real {
    if n == 0 then 1.0 else x * Power(x, n - 1)
  }

  lemma RealMulMono(a: real, b: real, c: real)
    requires a <= b && 0.0 <= c
    ensures a * c <= b * c
  {}

  /** The first four terms of a binomial expansion, by Horner's scheme. */
  function Cubic(x: real, c1: real, c2: real, c3: real): real {
    1.0 + x * (c1 + x * (c2 + x * c3))
  }

  lemma CubicStep(x: real, c1: real, c2: real, c3: real, p: real)
    requires x >= 0.0 && c3 >= 0.0 && p >= Cubic(x, c1, c2, c3)
    ensures (1.0 + x) * p >= Cubic(x, c1 + 1.0, c2 + c1, c3 + c2)
  {
    var t3 := x * c3;
    var t2 := x * (c2 + t3);
    var t1 := x * (c1 + t2);
    var u3 := x * (c3 + c2);
    var u2 := x * (c2 + c1 + u3);
    assert u3 == t2 + t3 - x * t3;
    RealMulMono(0.0, c3, x);
    RealMulMono(0.0, t3, x);
    RealMulMono(c2 + c1 + u3, c2 + c1 + t2 + t3, x);
    assert x * (c2 + c1 + t2 + t3) == t2 + t1;
    RealMulMono(c1 + 1.0 + u2, c1 + 1.0 + t2 + t1, x);
    assert x * (c1 + 1.0 + t2 + t1) == t1 + x * (1.0 + t1);
    RealMulMono(1.0 + t1, p, x);
    assert (1.0 + x) * p == p + x * p;
  }

  lemma PowerUnfolds(b: real, n: nat)
    ensures Power(b, 0) == 1.0 && Power(b, n + 1) == b * Power(b, n)
  {}

  lemma {:induction false} BinomialLowerBound(x: real, n: nat)
    requires x >= 0.0
    ensures Power(1.0 + x, n) >= Cubic(x, n as real, Choose2(n) as real, Choose3(n) as real)
  {
    hide Power, Cubic;
    if n == 0 {
      PowerUnfolds(1.0 + x, 0);
      assert Cubic(x, 0.0, 0.0, 0.0) == 1.0 by { CubicOfZero(x); }
    } else {
      var m: nat := n - 1;
      BinomialLowerBound(x, m);
      PowerUnfolds(1.0 + x, m);
      CubicStep(x, m as real, Choose2(m) as real, Choose3(m) as real, Power(1.0 + x, m));
      assert n as real == m as real + 1.0;
      assert Choose2(n) as real == Choose2(m) as real + m as real;
      assert Choose3(n) as real == Choose3(m) as real + Choose2(m) as real;
    }
  }

  lemma CubicOfZero(x: real)
    ensures Cubic(x, 0.0, 0.0, 0.0) == 1.0
  {}

  /** The exact rate of one second. */
  function PerSecond(rate: int): (x: real)
    ensures rate >= 0 ==> x >= 0.0
  {
    rate as real / (RAY * ONE_YEAR) as real
  }

  /** What rounding can add to the square of the rate per second, and then to its cube. */
  function SquareRounding(): real {
    1.0 / (2 * ONE_YEAR * ONE_YEAR) as real
  }

  function CubeRounding(): real {
    1.0 / (2 * ONE_YEAR) as real
  }

  lemma ProductAsReal(a: int, b: int)
    ensures (a * b) as real == a as real * b as real
  {}

  lemma SquareAsReal(rate: int, x: real, b2: int)
    requires rate as real == RAY as real * ONE_YEAR as real * x
    requires 2 * RAY * ONE_YEAR * ONE_YEAR * b2 <= 2 * (rate * rate) + RAY
    ensures b2 as real <= RAY as real * (x * x) + SquareRounding()
  {
    ProductAsReal(rate, rate);
    var r, y := RAY as real, ONE_YEAR as real;
    assert (r * y * x) * (r * y * x) == r * r * y * y * (x * x);
    var square := rate * rate;
    assert square as real == r * r * y * y * (x * x);
  }

  lemma CubeAsReal(rate: int, x: real, b2: int, b3: int)
    requires rate as real == RAY as real * ONE_YEAR as real * x
    requires 2 * RAY * ONE_YEAR * b3 <= 2 * (b2 * rate) + RAY
    ensures b3 as real <= b2 as real * x + CubeRounding()
  {
    ProductAsReal(b2, rate);
    var r, y, b := RAY as real, ONE_YEAR as real, b2 as real;
    assert b * (r * y * x) == r * y * (b * x);
    var product := b2 * rate;
    assert product as real == r * y * (b * x);
  }

  /** The base powers, as reals, exceed the exact powers of the rate per second by their rounding alone. */
  lemma BasePowersRounding(rate: int, x: real)
    requires rate >= 0 && x == PerSecond(rate)
    ensures BasePowerTwo(rate) as real <= RAY as real * (x * x) + SquareRounding()
    ensures BasePowerThree(rate) as real <= BasePowerTwo(rate) as real * x + CubeRounding()
  {
    hide BasePowerTwo, BasePowerThree, SquareRounding, CubeRounding;
    BasePowersAsProducts(rate);
    SquareAsReal(rate, x, BasePowerTwo(rate));
    CubeAsReal(rate, x, BasePowerTwo(rate), BasePowerThree(rate));
  }

  lemma TermsAgainstCubic(r: real, x: real, n: real, c2: real, c3: real, a: real, b2: real, b3: real, s2: real, s3: real)
    requires x >= 0.0 && c2 >= 0.0 && c3 >= 0.0
    requires a <= r * (n * x)
    requires b2 <= r * (x * x) + s2 && b3 <= b2 * x + s3
    ensures r + a + c2 * b2 + c3 * b3 <= r * Cubic(x, n, c2, c3) + c2 * s2 + c3 * (s3 + x * s2)
  {
    var x2 := x * x;
    RealMulMono(b2, r * x2 + s2, c2);
    RealMulMono(b2, r * x2 + s2, x);
    RealMulMono(b3, (r * x2 + s2) * x + s3, c3);
    assert c3 * ((r * x2 + s2) * x + s3) == r * (c3 * (x2 * x)) + c3 * (s3 + x * s2);
    assert c2 * (r * x2 + s2) == r * (c2 * x2) + c2 * s2;
    assert Cubic(x, n, c2, c3) - 1.0 == n * x + c2 * x2 + c3 * (x2 * x);
    assert r * Cubic(x, n, c2, c3) == r + r * (n * x + c2 * x2 + c3 * (x2 * x));
    assert r * (n * x + c2 * x2 + c3 * (x2 * x)) == r * (n * x) + r * (c2 * x2) + r * (c3 * (x2 * x));
  }

  lemma SimpleInterestAsReal(rate: int, n: nat, x: real)
    requires rate >= 0 && x == PerSecond(rate)
    ensures TruncDiv(rate * n, ONE_YEAR) as real <= RAY as real * (n as real * x)
  {
    SimpleInterestBounds(rate, n);
    hide TruncDiv;
    assert (rate * n) as real == rate as real * n as real;
    assert rate as real == (RAY * ONE_YEAR) as real * x;
    assert rate as real * n as real == (RAY * ONE_YEAR) as real * (n as real * x);
  }

  /** A cubic times a ray, with the rounding of the base powers. */
  function RoundedCubic(x: real, n: real, c2: real, c3: real): real {
    RAY as real * Cubic(x, n, c2, c3) + c2 * SquareRounding() + c3 * (CubeRounding() + x * SquareRounding())
  }

  lemma TermsWithinRoundedCubic(x: real, n: real, c2: real, c3: real, a: real, b2: real, b3: real, t2: real, t3: real)
    requires x >= 0.0 && c2 >= 0.0 && c3 >= 0.0 && a <= RAY as real * (n * x)
    requires b2 <= RAY as real * (x * x) + SquareRounding() && b3 <= b2 * x + CubeRounding()
    requires t2 == c2 * b2 && t3 == c3 * b3
    ensures RAY as real + a + t2 + t3 <= RoundedCubic(x, n, c2, c3)
  {
    hide Cubic, SquareRounding, CubeRounding;
    TermsAgainstCubic(RAY as real, x, n, c2, c3, a, b2, b3, SquareRounding(), CubeRounding());
  }

  /** Against true per-second compounding over the same time, the approximation charges more
      by no more than the rounding of its two base powers. */
  lemma NeverOvercharges(rate: int, now: int, last: int)
    requires rate >= 0 && now >= last
    ensures var n := now - last;
            CompoundedInterest(rate, now, last) as real <=
            RAY as real * Power(1.0 + PerSecond(rate), n)
            + Choose2(n) as real * SquareRounding()
            + Choose3(n) as real * (CubeRounding() + PerSecond(rate) * SquareRounding())
  {
    hide RayMul, BasePowerTwo, BasePowerThree, CompoundedInterest, Cubic, Power, TruncDiv, Choose2, Choose3, PerSecond,
      SquareRounding, CubeRounding;
    var n: nat, x := now - last, PerSecond(rate);
    var a, c2, c3, b2, b3 := TruncDiv(rate * n, ONE_YEAR), Choose2(n), Choose3(n), BasePowerTwo(rate), BasePowerThree(rate);
    BinomialForm(rate, now, last);
    BasePowersRounding(rate, x);
    SimpleInterestAsReal(rate, n, x);
    ProductAsReal(c2, b2);
    ProductAsReal(c3, b3);
    var t2, t3 := c2 * b2, c3 * b3;
    TermsWithinRoundedCubic(x, n as real, c2 as real, c3 as real, a as real, b2 as real, b3 as real, t2 as real, t3 as real);
    BinomialLowerBound(x, n);
    RealMulMono(Cubic(x, n as real, c2 as real, c3 as real), Power(1.0 + x, n), RAY as real);
    assert CompoundedInterest(rate, now, last) == RAY + a + t2 + t3;
  }

  // ---------------------------------------------------------------------------
  // Nor does it undercharge by more than the expansion leaves out
  // ---------------------------------------------------------------------------

  function Choose4(n: nat): nat {
    if n == 0 then 0 else Choose4(n - 1) + Choose3(n - 1)
  }

  function Square(x: real): real {
    x * x
  }

  function Cube(x: real): real {
    Square(x) * x
  }

  function FourthPower(x: real): real {
    Power(x, 4)
  }

  lemma FourthPowerUnfolds(x: real)
    ensures FourthPower(x) == Square(x) * Square(x)
  {
    var x2 := x * x;
    assert Power(x, 2) == x2 by {
      assert Power(x, 1) == x;
    }
    assert Power(x, 4) == x * (x * Power(x, 2)) by {
      assert Power(x, 3) == x * Power(x, 2);
    }
    assert x * (x * x2) == x2 * x2;
  }

  lemma CubicInPowers(x: real, c1: real, c2: real, c3: real)
    ensures Cubic(x, c1, c2, c3) == 1.0 + c1 * x + c2 * Square(x) + c3 * Cube(x)
    ensures Cube(x) == Square(x) * x
  {
    var t3 := x * c3;
    assert x * (c2 + t3) == c2 * x + c3 * (x * x);
    assert x * (c1 + (c2 * x + c3 * (x * x))) == c1 * x + c2 * (x * x) + c3 * (x * x * x);
  }

  lemma FourthPowerNonnegative(x: real)
    requires x >= 0.0
    ensures FourthPower(x) >= 0.0
  {
    FourthPowerUnfolds(x);
    hide FourthPower;
    RealMulMono(0.0, x, x);
    RealMulMono(0.0, Square(x), Square(x));
  }

  /** One level of Horner's scheme. */
  function Horner(x: real, c: real, rest: real): real {
    x * (c + rest)
  }

  lemma CubicLevels(x: real, c1: real, c2: real, c3: real)
    ensures Cubic(x, c1, c2, c3) == 1.0 + Horner(x, c1, Horner(x, c2, Horner(x, c3, 0.0)))
  {}

  predicate FourthLevel(t: real, x: real, t3: real) {
    t == x * (x * (x * t3))
  }

  lemma FourTimes(x: real, c3: real, t3: real, t4: real)
    requires t3 == Horner(x, c3, 0.0) && t4 == c3 * FourthPower(x)
    ensures FourthLevel(t4, x, t3)
  {
    FourthPowerUnfolds(x);
    hide FourthPower;
    var x2 := x * x;
    assert x * t3 == c3 * x2;
    assert x * (x * (c3 * x2)) == c3 * (x2 * x2);
  }

  lemma ThirdLevel(x: real, c2: real, c3: real, t2: real, t3: real, u3: real, w: real)
    requires t2 == Horner(x, c2, t3) && t3 == Horner(x, c3, 0.0) && u3 == Horner(x, c3 + c2, 0.0) && w == x * t3
    ensures u3 == t2 + t3 - w
  {}

  lemma SecondLevel(x: real, c1: real, c2: real, t1: real, t2: real, t3: real, u2: real, u3: real, w: real, w': real)
    requires t1 == Horner(x, c1, t2) && t2 == Horner(x, c2, t3) && u2 == Horner(x, c2 + c1, u3)
    requires u3 == t2 + t3 - w && w' == x * w
    ensures u2 == t2 + t1 - w'
  {
    assert u2 == x * (c2 + t3) + x * (c1 + t2) - x * w;
  }

  lemma FirstLevel(x: real, c1: real, t1: real, t2: real, u1: real, u2: real, w': real, t4: real)
    requires t1 == Horner(x, c1, t2) && u1 == Horner(x, c1 + 1.0, u2) && u2 == t2 + t1 - w' && t4 == x * w'
    ensures (1.0 + x) * (1.0 + t1) == 1.0 + u1 + t4
  {
    assert u1 == x * (c1 + t2) + x + x * t1 - x * w';
  }

  lemma HornerStep(x: real, c1: real, c2: real, c3: real, t1: real, t2: real, t3: real, u1: real, u2: real, u3: real, t4: real,
                   cubic: real, cubic': real, c1': real, c2': real, c3': real)
    requires c1' == c1 + 1.0 && c2' == c2 + c1 && c3' == c3 + c2
    requires cubic == 1.0 + t1 && cubic' == 1.0 + u1
    requires t1 == Horner(x, c1, t2) && t2 == Horner(x, c2, t3) && t3 == Horner(x, c3, 0.0) && FourthLevel(t4, x, t3)
    requires u1 == Horner(x, c1', u2) && u2 == Horner(x, c2', u3) && u3 == Horner(x, c3', 0.0)
    ensures Multiplied(x, cubic, cubic', t4)
  {
    hide Horner;
    var w := x * t3;
    ThirdLevel(x, c2, c3, t2, t3, u3, w);
    SecondLevel(x, c1, c2, t1, t2, t3, u2, u3, w, x * w);
    FirstLevel(x, c1, t1, t2, u1, u2, x * w, t4);
  }

  predicate Multiplied(x: real, cubic: real, cubic': real, t4: real) {
    (1.0 + x) * cubic == cubic' + t4
  }

  lemma CubicStepExact(x: real, c1: real, c2: real, c3: real, c1': real, c2': real, c3': real, t4: real)
    requires c1' == c1 + 1.0 && c2' == c2 + c1 && c3' == c3 + c2 && t4 == c3 * FourthPower(x)
    ensures Multiplied(x, Cubic(x, c1, c2, c3), Cubic(x, c1', c2', c3'), t4)
  {
    hide Cubic, FourthPower, Horner, FourthLevel, Multiplied;
    CubicLevels(x, c1, c2, c3);
    CubicLevels(x, c1', c2', c3');
    var t3, u3 := Horner(x, c3, 0.0), Horner(x, c3', 0.0);
    var t2, u2 := Horner(x, c2, t3), Horner(x, c2', u3);
    var t1, u1 := Horner(x, c1, t2), Horner(x, c1', u2);
    FourTimes(x, c3, t3, t4);
    HornerStep(x, c1, c2, c3, t1, t2, t3, u1, u2, u3, t4,
               Cubic(x, c1, c2, c3), Cubic(x, c1', c2', c3'), c1', c2', c3');
  }

  /** A power that exceeds its cubic by at most a multiple of itself and the fourth power. */
  predicate Remains(x: real, power: real, cubic: real, c4: real) {
    power >= 1.0 && power <= cubic + c4 * (FourthPower(x) * power)
  }

  lemma RemainderArithmetic(x: real, p: real, p': real, cubic: real, cubic': real, c3: real, c4: real, c4': real, x4: real)
    requires x >= 0.0 && p >= 1.0 && c3 >= 0.0 && x4 >= 0.0 && p' == (1.0 + x) * p && c4' == c4 + c3
    requires p <= cubic + c4 * (x4 * p) && (1.0 + x) * cubic == cubic' + c3 * x4
    ensures p' >= 1.0 && p' <= cubic' + c4' * (x4 * p')
  {
    RealMulMono(p, cubic + c4 * (x4 * p), 1.0 + x);
    assert (1.0 + x) * (c4 * (x4 * p)) == c4 * (x4 * p');
    RealMulMono(0.0, p, x);
    assert p' >= 1.0;
    RealMulMono(0.0, x4, c3);
    RealMulMono(1.0, p', c3 * x4);
    assert p' * (c3 * x4) == c3 * (x4 * p');
  }

  lemma RemainderStep(x: real, p: real, c1: real, c2: real, c3: real, c4: real,
                      p': real, c1': real, c2': real, c3': real, c4': real)
    requires x >= 0.0 && c3 >= 0.0 && Remains(x, p, Cubic(x, c1, c2, c3), c4)
    requires p' == (1.0 + x) * p && c1' == c1 + 1.0 && c2' == c2 + c1 && c3' == c3 + c2 && c4' == c4 + c3
    ensures Remains(x, p', Cubic(x, c1', c2', c3'), c4')
  {
    hide Cubic, FourthPower;
    FourthPowerNonnegative(x);
    CubicStepExact(x, c1, c2, c3, c1', c2', c3', c3 * FourthPower(x));
    RemainderArithmetic(x, p, p', Cubic(x, c1, c2, c3), Cubic(x, c1', c2', c3'), c3, c4, c4', FourthPower(x));
  }

  lemma NothingRemains(x: real)
    ensures Remains(x, 1.0, 1.0, 0.0)
  {
    hide FourthPower;
    assert 0.0 * (FourthPower(x) * 1.0) == 0.0;
  }

  /** What the first four terms leave out of true compounding is at most a fourth binomial multiple of it. */
  lemma {:induction false} BinomialRemainder(x: real, n: nat)
    requires x >= 0.0
    ensures Remains(x, Power(1.0 + x, n), Cubic(x, n as real, Choose2(n) as real, Choose3(n) as real), Choose4(n) as real)
  {
    hide Power, Cubic, Remains;
    if n == 0 {
      NothingRemains(x);
      PowerUnfolds(1.0 + x, 0);
      CubicOfZero(x);
      assert n as real == 0.0 && Choose2(n) as real == 0.0 && Choose3(n) as real == 0.0 && Choose4(n) as real == 0.0;
    } else {
      var m: nat := n - 1;
      BinomialRemainder(x, m);
      PowerUnfolds(1.0 + x, m);
      assert n as real == m as real + 1.0;
      assert Choose2(n) as real == Choose2(m) as real + m as real;
      assert Choose3(n) as real == Choose3(m) as real + Choose2(m) as real;
      assert Choose4(n) as real == Choose4(m) as real + Choose3(m) as real;
      RemainderStep(x, Power(1.0 + x, m), m as real, Choose2(m) as real, Choose3(m) as real, Choose4(m) as real,
                    Power(1.0 + x, n), n as real, Choose2(n) as real, Choose3(n) as real, Choose4(n) as real);
    }
  }

  lemma TermsFloors(r: real, x: real, x2: real, x3: real, n: real, c2: real, c3: real, a: real, b2: real, b3: real, cubic: real)
    requires x >= 0.0 && c2 >= 0.0 && c3 >= 0.0 && x3 == x2 * x
    requires cubic == 1.0 + n * x + c2 * x2 + c3 * x3
    requires a >= r * (n * x) - 1.0 && b2 >= r * x2 - 1.0 && b3 >= b2 * x - 1.0
    ensures r + a + c2 * b2 + c3 * b3 >= r * cubic - (1.0 + c2 + c3 * (1.0 + x))
  {
    RealMulMono(r * x2 - 1.0, b2, c2);
    RealMulMono(r * x2 - 1.0, b2, x);
    assert (r * x2 - 1.0) * x == r * x3 - x;
    RealMulMono(r * x3 - x - 1.0, b3, c3);
    var t1, t2, t3 := n * x, c2 * x2, c3 * x3;
    assert (r * x2 - 1.0) * c2 == r * t2 - c2;
    assert (r * x3 - x - 1.0) * c3 == r * t3 - c3 * (1.0 + x);
    assert r * cubic == r + r * t1 + r * t2 + r * t3;
  }

  lemma TermsNotBelowCubic(r: real, x: real, n: real, c2: real, c3: real, a: real, b2: real, b3: real)
    requires x >= 0.0 && c2 >= 0.0 && c3 >= 0.0
    requires a >= r * (n * x) - 1.0 && b2 >= r * Square(x) - 1.0 && b3 >= b2 * x - 1.0
    ensures r + a + c2 * b2 + c3 * b3 >= r * Cubic(x, n, c2, c3) - (1.0 + c2 + c3 * (1.0 + x))
  {
    hide Cubic, Square, Cube;
    CubicInPowers(x, n, c2, c3);
    TermsFloors(r, x, Square(x), Cube(x), n, c2, c3, a, b2, b3, Cubic(x, n, c2, c3));
  }

  lemma FloorsAsReals(rate: int, n: nat, x: real)
    requires rate >= 0 && x == PerSecond(rate)
    ensures TruncDiv(rate * n, ONE_YEAR) as real >= RAY as real * (n as real * x) - 1.0
    ensures BasePowerTwo(rate) as real >= RAY as real * Square(x) - 1.0
    ensures BasePowerThree(rate) as real >= BasePowerTwo(rate) as real * x - 1.0
  {
    hide BasePowerTwo, BasePowerThree, TruncDiv;
    BasePowersFloors(rate);
    SimpleInterestBounds(rate, n);
    SimpleFloor(rate, n, x, TruncDiv(rate * n, ONE_YEAR));
    SquareFloor(rate, x, BasePowerTwo(rate));
    CubeFloor(rate, x, BasePowerTwo(rate), BasePowerThree(rate));
  }

  lemma SimpleFloor(rate: int, n: int, x: real, a: int)
    requires rate as real == RAY as real * ONE_YEAR as real * x && rate * n < ONE_YEAR * a + ONE_YEAR
    ensures a as real >= RAY as real * (n as real * x) - 1.0
  {
    ProductAsReal(rate, n);
    var product := rate * n;
    assert (RAY as real * ONE_YEAR as real * x) * n as real == RAY as real * ONE_YEAR as real * (n as real * x);
    assert product as real == RAY as real * ONE_YEAR as real * (n as real * x);
  }

  lemma SquareFloor(rate: int, x: real, b2: int)
    requires rate as real == RAY as real * ONE_YEAR as real * x
    requires 2 * (rate * rate) <= 2 * RAY * ONE_YEAR * ONE_YEAR * b2 + 2 * RAY * ONE_YEAR * ONE_YEAR
    ensures b2 as real >= RAY as real * Square(x) - 1.0
  {
    ProductAsReal(rate, rate);
    var r, y := RAY as real, ONE_YEAR as real;
    assert (r * y * x) * (r * y * x) == r * r * y * y * (x * x);
    var square := rate * rate;
    assert square as real == r * r * y * y * (x * x);
  }

  lemma CubeFloor(rate: int, x: real, b2: int, b3: int)
    requires rate as real == RAY as real * ONE_YEAR as real * x
    requires b2 * rate <= RAY * ONE_YEAR * b3 + RAY * ONE_YEAR
    ensures b3 as real >= b2 as real * x - 1.0
  {
    ProductAsReal(b2, rate);
    var r, y, b := RAY as real, ONE_YEAR as real, b2 as real;
    assert b * (r * y * x) == r * y * (b * x);
    var product := b2 * rate;
    assert product as real == r * y * (b * x);
  }

  lemma CompoundedNotBelowCubic(rate: int, now: int, last: int)
    requires rate >= 0 && now >= last
    ensures var x, c2, c3 := PerSecond(rate), Choose2(now - last) as real, Choose3(now - last) as real;
            CompoundedInterest(rate, now, last) as real >=
            RAY as real * Cubic(x, (now - last) as real, c2, c3) - (1.0 + c2 + c3 * (1.0 + x))
  {
    hide RayMul, BasePowerTwo, BasePowerThree, CompoundedInterest, Cubic, TruncDiv, Choose2, Choose3, PerSecond, Square;
    var n: nat, x := now - last, PerSecond(rate);
    var a, c2, c3, b2, b3 := TruncDiv(rate * n, ONE_YEAR), Choose2(n), Choose3(n), BasePowerTwo(rate), BasePowerThree(rate);
    BinomialForm(rate, now, last);
    FloorsAsReals(rate, n, x);
    ProductAsReal(c2, b2);
    ProductAsReal(c3, b3);
    var t2, t3 := c2 * b2, c3 * b3;
    TermsNotBelowCubic(RAY as real, x, n as real, c2 as real, c3 as real, a as real, b2 as real, b3 as real);
    assert CompoundedInterest(rate, now, last) == RAY + a + t2 + t3;
  }

  /** Against true per-second compounding, the approximation charges less by no more than the fourth
      binomial multiple the expansion leaves out, and the truncation of its terms. */
  lemma NeverUnderchargesMuch(rate: int, now: int, last: int)
    requires rate >= 0 && now >= last
    ensures var n := now - last;
            var x := PerSecond(rate);
            var exact := Power(1.0 + x, n);
            CompoundedInterest(rate, now, last) as real >=
            RAY as real * (exact - Choose4(n) as real * (FourthPower(x) * exact))
            - (1.0 + Choose2(n) as real + Choose3(n) as real * (1.0 + x))
  {
    hide CompoundedInterest, Cubic, Power, Choose2, Choose3, Choose4, PerSecond, FourthPower;
    var n: nat := now - last;
    var x := PerSecond(rate);
    var exact := Power(1.0 + x, n);
    CompoundedNotBelowCubic(rate, now, last);
    BinomialRemainder(x, n);
    RealMulMono(exact - Choose4(n) as real * (FourthPower(x) * exact),
                Cubic(x, n as real, Choose2(n) as real, Choose3(n) as real), RAY as real);
  }

  // ---------------------------------------------------------------------------
  // Splitting an accrual
  // ---------------------------------------------------------------------------

  /** Simple interest over two stretches, multiplied, reaches the interest over both but for one unit. */
  lemma LinearSplitProduct(rate: int, t0: int, t1: int, t2: int)
    requires rate >= 0 && t0 <= t1 <= t2
    ensures RAY * LinearInterest(rate, t2, t0) <= LinearInterest(rate, t1, t0) * LinearInterest(rate, t2, t1) + RAY
  {
    SimpleInterestBounds(rate, t1 - t0);
    SimpleInterestBounds(rate, t2 - t1);
    SimpleInterestBounds(rate, t2 - t0);
    assert rate * (t2 - t0) == rate * (t1 - t0) + rate * (t2 - t1);
    var a, b, c := TruncDiv(rate * (t1 - t0), ONE_YEAR), TruncDiv(rate * (t2 - t1), ONE_YEAR), TruncDiv(rate * (t2 - t0), ONE_YEAR);
    hide TruncDiv;
    assert c <= a + b + 1;
    MulMono(0, a, b);
    assert (RAY + a) * (RAY + b) == RAY * RAY + RAY * a + RAY * b + a * b;
  }

  lemma LinearSplit(rate: int, t0: int, t1: int, t2: int)
    requires rate >= 0 && t0 <= t1 <= t2
    ensures RayMul(LinearInterest(rate, t1, t0), LinearInterest(rate, t2, t1)) >= LinearInterest(rate, t2, t0) - 1
  {
    hide LinearInterest, RayMul, TruncDiv;
    LinearSplitProduct(rate, t0, t1, t2);
    CompoundedAtLeastLinear(rate, t1, t0);
    CompoundedAtLeastLinear(rate, t2, t1);
    RayMulBounds(LinearInterest(rate, t1, t0), LinearInterest(rate, t2, t1));
  }

  /** One unit is really lost: two half-years at the smallest odd rate pay nothing each, a year pays one. */
  lemma LinearSplitLossIsOne()
    ensures exists rate: int, t0: int, t1: int, t2: int :: rate >= 0 && t0 <= t1 <= t2
              && RayMul(LinearInterest(rate, t1, t0), LinearInterest(rate, t2, t1)) == LinearInterest(rate, t2, t0) - 1
  {
    var h := ONE_YEAR / 2;
    assert LinearInterest(1, h, 0) == RAY && LinearInterest(1, 2 * h, h) == RAY && LinearInterest(1, 2 * h, 0) == RAY + 1;
    assert RayMul(LinearInterest(1, h, 0), LinearInterest(1, 2 * h, h)) == LinearInterest(1, 2 * h, 0) - 1;
  }

  /** What splitting a compounded accrual can lose, in units of 1 / (2 * ONE_YEAR^2 * RAY). */
  function SplitLoss(rate: int, n: nat, m: nat): int {
    2 * ONE_YEAR * ONE_YEAR * RAY
    + RAY * (n * m)
    + 2 * ONE_YEAR * (rate * (n + m))
    + ONE_YEAR * RAY * (Choose2(n) * m + Choose2(m) * n)
    + 2 * ONE_YEAR * ONE_YEAR * (BasePowerTwo(rate) * (Choose2(n) + Choose2(m)))
  }

  lemma FlooredProduct(x: int, y: int, a: int, b: int)
    requires 0 <= ONE_YEAR * a <= x < ONE_YEAR * a + ONE_YEAR
    requires 0 <= ONE_YEAR * b <= y < ONE_YEAR * b + ONE_YEAR
    ensures x * y - ONE_YEAR * ONE_YEAR * (a * b) <= ONE_YEAR * (x + y)
  {
    var a', b' := ONE_YEAR * a, ONE_YEAR * b;
    assert a' * b' == ONE_YEAR * ONE_YEAR * (a * b);
    assert x * y - a' * b' == (y - b') * x + (x - a') * b';
    MulMono(y - b', ONE_YEAR, x);
    MulMono(x - a', ONE_YEAR, b');
  }

  lemma SquareTermLoss(r: int, n: nat, m: nat, a: int, b: int, b2: int)
    requires r >= 0
    requires 0 <= ONE_YEAR * a <= r * n < ONE_YEAR * a + ONE_YEAR
    requires 0 <= ONE_YEAR * b <= r * m < ONE_YEAR * b + ONE_YEAR
    requires 2 * RAY * ONE_YEAR * ONE_YEAR * b2 <= 2 * (r * r) + RAY
    ensures 2 * ONE_YEAR * ONE_YEAR * (RAY * (n * m * b2) - a * b) <= RAY * (n * m) + 2 * ONE_YEAR * (r * (n + m))
  {
    var x, y, p, w := r * n, r * m, n * m, r * r;
    FlooredProduct(x, y, a, b);
    assert x * y == w * p;
    assert r * (n + m) == x + y;
    MulMono(0, n, m);
    SquareTermScaled(w, p, b2);
  }

  lemma SquareTermScaled(w: int, p: int, b2: int)
    requires p >= 0 && 2 * RAY * ONE_YEAR * ONE_YEAR * b2 <= 2 * w + RAY
    ensures 2 * ONE_YEAR * ONE_YEAR * (RAY * (p * b2)) <= 2 * (w * p) + RAY * p
  {
    MulMono(2 * RAY * ONE_YEAR * ONE_YEAR * b2, 2 * w + RAY, p);
  }

  lemma CubeTermLoss(r: int, c: nat, m: nat, b: int, b2: int, b3: int)
    requires r >= 0 && b2 >= 0
    requires r * m < ONE_YEAR * b + ONE_YEAR
    requires 2 * RAY * ONE_YEAR * b3 <= 2 * (b2 * r) + RAY
    ensures 2 * ONE_YEAR * (RAY * (c * m * b3) - b * (c * b2)) <= RAY * (c * m) + 2 * ONE_YEAR * (c * b2)
  {
    var k, d := c * m, c * b2;
    MulMono(0, c, m);
    MulMono(0, c, b2);
    MulMono(2 * RAY * ONE_YEAR * b3, 2 * (b2 * r) + RAY, k);
    MulMono(r * m, ONE_YEAR * b + ONE_YEAR, d);
    assert (2 * RAY * ONE_YEAR * b3) * k == 2 * ONE_YEAR * (RAY * (k * b3));
    assert (2 * (b2 * r) + RAY) * k == 2 * ((r * m) * d) + RAY * k by { assert (b2 * r) * k == (r * m) * d; }
    assert (ONE_YEAR * b + ONE_YEAR) * d == ONE_YEAR * (b * d) + ONE_YEAR * d;
  }

  lemma GrowthProduct(a: int, b: int, c: int, d: int, e: int, f: int)
    requires a >= 0 && b >= 0 && c >= 0 && d >= 0 && e >= 0 && f >= 0
    ensures (RAY + a + b + c) * (RAY + d + e + f) >=
            RAY * RAY + RAY * (a + b + c + d + e + f) + a * d + a * e + d * b
  {
    var g, h := a + b + c, d + e + f;
    assert (RAY + a + b + c) * (RAY + d + e + f) == RAY * RAY + RAY * (g + h) + g * h;
    assert g * h == a * d + a * e + a * f + b * d + b * (e + f) + c * h;
    MulMono(0, a, f);
    MulMono(0, b, e + f);
    MulMono(0, c, h);
  }

  /** At one rate, compounding over two stretches and multiplying falls short of compounding over both
      by at most the explicit loss. */
  lemma CompoundedSplitProduct(rate: int, t0: int, t1: int, t2: int)
    requires rate >= 0 && t0 <= t1 <= t2
    ensures 2 * ONE_YEAR * ONE_YEAR *
            (RAY * CompoundedInterest(rate, t2, t0) - CompoundedInterest(rate, t1, t0) * CompoundedInterest(rate, t2, t1))
            <= SplitLoss(rate, t1 - t0, t2 - t1)
  {
    hide CompoundedInterest, BasePowerTwo, BasePowerThree, RayMul, TruncDiv, Choose2, Choose3;
    var n: nat, m: nat := t1 - t0, t2 - t1;
    var b2, b3 := BasePowerTwo(rate), BasePowerThree(rate);
    var a, b, c := TruncDiv(rate * n, ONE_YEAR), TruncDiv(rate * m, ONE_YEAR), TruncDiv(rate * (n + m), ONE_YEAR);
    BinomialForm(rate, t1, t0);
    BinomialForm(rate, t2, t1);
    BinomialForm(rate, t2, t0);
    BasePowersNonnegative(rate);
    BasePowersAsProducts(rate);
    SimpleInterestBounds(rate, n);
    SimpleInterestBounds(rate, m);
    SimpleInterestBounds(rate, n + m);
    Vandermonde(n, m);
    SplitCombined(rate, n, m, a, b, c, b2, b3, Choose2(n), Choose3(n), Choose2(m), Choose3(m),
                  CompoundedInterest(rate, t2, t0), CompoundedInterest(rate, t1, t0), CompoundedInterest(rate, t2, t1));
  }

  lemma BasePowersAsProducts(rate: int)
    requires rate >= 0
    ensures 2 * RAY * ONE_YEAR * ONE_YEAR * BasePowerTwo(rate) <= 2 * (rate * rate) + RAY
    ensures 2 * RAY * ONE_YEAR * BasePowerThree(rate) <= 2 * (BasePowerTwo(rate) * rate) + RAY
  {
    BasePowersNonnegative(rate);
    RayMulBounds(rate, rate);
    RayMulBounds(BasePowerTwo(rate), rate);
    hide RayMul, BasePowerTwo, BasePowerThree;
  }

  lemma SplitCombined(r: int, n: nat, m: nat, a: int, b: int, c: int, b2: int, b3: int,
                      c2n: nat, c3n: nat, c2m: nat, c3m: nat, whole: int, first: int, second: int)
    requires r >= 0 && b2 >= 0 && b3 >= 0
    requires 0 <= ONE_YEAR * a <= r * n < ONE_YEAR * a + ONE_YEAR
    requires 0 <= ONE_YEAR * b <= r * m < ONE_YEAR * b + ONE_YEAR
    requires 0 <= ONE_YEAR * c <= r * (n + m)
    requires 2 * RAY * ONE_YEAR * ONE_YEAR * b2 <= 2 * (r * r) + RAY
    requires 2 * RAY * ONE_YEAR * b3 <= 2 * (b2 * r) + RAY
    requires whole == RAY + c + (c2n + c2m + n * m) * b2 + (c3n + c3m + c2n * m + c2m * n) * b3
    requires first == RAY + a + c2n * b2 + c3n * b3
    requires second == RAY + b + c2m * b2 + c3m * b3
    ensures 2 * ONE_YEAR * ONE_YEAR * (RAY * whole - first * second) <=
            2 * ONE_YEAR * ONE_YEAR * RAY + RAY * (n * m) + 2 * ONE_YEAR * (r * (n + m))
            + ONE_YEAR * RAY * (c2n * m + c2m * n) + 2 * ONE_YEAR * ONE_YEAR * (b2 * (c2n + c2m))
  {
    SquareTermLoss(r, n, m, a, b, b2);
    CubeTermLoss(r, c2n, m, b, b2, b3);
    CubeTermLoss(r, c2m, n, a, b2, b3);
    assert r * (n + m) == r * n + r * m;
    MulMono(0, c2n, b2);
    MulMono(0, c2m, b2);
    MulMono(0, c3n, b3);
    MulMono(0, c3m, b3);
    GrowthProduct(a, c2n * b2, c3n * b3, b, c2m * b2, c3m * b3);
    Gather(c2n, c2m, n * m, b2);
    Gather(c3n, c3m, c2n * m + c2m * n, b3);
    Gather(0, c2n * m, c2m * n, b3);
    Gather(0, c2n, c2m, b2);
    assert 0 * b2 == 0 && 0 * b3 == 0;
    SplitArithmetic(a, b, c, c2n * b2, c3n * b3, c2m * b2, c3m * b3, n * m * b2, c2n * m * b3, c2m * n * b3,
                    a * b, b * (c2n * b2), a * (c2m * b2), RAY * (n * m) + 2 * ONE_YEAR * (r * (n + m)),
                    c2n * m, c2m * n,
                    first * second);
  }

  lemma Gather(x: int, y: int, z: int, k: int)
    ensures (x + y + z) * k == x * k + y * k + z * k
  {}

  lemma SplitArithmetic(a: int, b: int, c: int, p: int, q: int, u: int, v: int, sq: int, k1: int, k2: int,
                        ab: int, bp: int, au: int, loss: int, m1: int, m2: int, product: int)
    requires c <= a + b + 1
    requires 2 * ONE_YEAR * ONE_YEAR * (RAY * sq - ab) <= loss
    requires 2 * ONE_YEAR * (RAY * k1 - bp) <= RAY * m1 + 2 * ONE_YEAR * p
    requires 2 * ONE_YEAR * (RAY * k2 - au) <= RAY * m2 + 2 * ONE_YEAR * u
    requires product >= RAY * RAY + RAY * (a + p + q + b + u + v) + ab + au + bp
    ensures 2 * ONE_YEAR * ONE_YEAR * (RAY * (RAY + c + p + u + sq + q + v + k1 + k2) - product) <=
            2 * ONE_YEAR * ONE_YEAR * RAY + loss + ONE_YEAR * RAY * (m1 + m2) + 2 * ONE_YEAR * ONE_YEAR * (p + u)
  {}

  lemma CompoundedSplit(rate: int, t0: int, t1: int, t2: int)
    requires rate >= 0 && t0 <= t1 <= t2
    ensures 2 * ONE_YEAR * ONE_YEAR * RAY *
            (CompoundedInterest(rate, t2, t0) - RayMul(CompoundedInterest(rate, t1, t0), CompoundedInterest(rate, t2, t1)))
            <= SplitLoss(rate, t1 - t0, t2 - t1) + ONE_YEAR * ONE_YEAR * RAY
  {
    hide CompoundedInterest, SplitLoss, RayMul, TruncDiv;
    CompoundedSplitProduct(rate, t0, t1, t2);
    CompoundedAtLeastLinear(rate, t1, t0);
    CompoundedAtLeastLinear(rate, t2, t1);
    RayMulBounds(CompoundedInterest(rate, t1, t0), CompoundedInterest(rate, t2, t1));
  }

  // ---------------------------------------------------------------------------
  // Splitting an accrual of an index
  // ---------------------------------------------------------------------------

  /** A loss between interest factors becomes a loss between the indexes they are applied to. */
  lemma IndexSplit(whole: int, first: int, second: int, index: int, k: int, loss: int)
    requires whole >= 0 && first >= 0 && second >= 0 && index >= 0 && k >= 0
    requires k * (RAY * whole - first * second) <= loss
    ensures 2 * RAY * RAY * (k * (RayMul(whole, index) - RayMul(second, RayMul(first, index))))
            <= 2 * (loss * index) + k * (second * RAY + 2 * RAY * RAY)
  {
    hide RayMul, TruncDiv;
    var p := RayMul(first, index);
    RayMulBounds(first, index);
    RayMulBounds(second, p);
    RayMulBounds(whole, index);
    IndexSplitArithmetic(whole, first, second, index, p, RayMul(second, p), RayMul(whole, index), k, loss);
  }

  lemma IndexSplitArithmetic(whole: int, first: int, second: int, index: int, p: int, q: int, t: int, k: int, loss: int)
    requires second >= 0 && index >= 0 && k >= 0
    requires k * (RAY * whole - first * second) <= loss
    requires 2 * (first * index) + RAY < 2 * RAY * p + 2 * RAY
    requires 2 * (second * p) + RAY < 2 * RAY * q + 2 * RAY
    requires 2 * RAY * t <= 2 * (whole * index) + RAY
    ensures 2 * RAY * RAY * (k * (t - q)) <= 2 * (loss * index) + k * (second * RAY + 2 * RAY * RAY)
  {
    var fi, wi, sp := first * index, whole * index, second * p;
    var g := RAY * whole - first * second;
    MulMono(2 * fi - RAY, 2 * RAY * p, second);
    assert second * fi == (first * second) * index;
    assert g * index == RAY * wi - second * fi;
    assert 2 * RAY * RAY * (t - q) <= 2 * (g * index) + second * RAY + 2 * RAY * RAY;
    MulMono(2 * RAY * RAY * (t - q), 2 * (g * index) + second * RAY + 2 * RAY * RAY, k);
    MulMono(k * g, loss, index);
    assert (k * g) * index == k * (g * index);
  }
}
