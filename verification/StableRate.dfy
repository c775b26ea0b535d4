/** The average rate of the stable debt, as principal is added and removed. */
module StableRate {
  import opened WadRayMath

  /** The average after a signed change of the total at a given rate; an empty total has rate zero. */
  function AverageStableRate(average: int, total: int, change: int, rate: int): int {
    if total + change == 0 then 0 else TruncDiv(average * total + rate * change, total + change)
  }

  /** A user's own rate after adding an amount at the current rate. */
  function UserStableRate(balance: int, rateBefore: int, amount: int, rateNew: int): int
    requires balance + amount != 0
  {
    TruncDiv(balance * rateBefore + amount * rateNew, balance + amount)
  }

  /** The user's and the reserve's rule are the same rule on nonempty debt. */
  lemma UserRateIsAverage(balance: int, rateBefore: int, amount: int, rateNew: int)
    requires balance + amount != 0
    ensures UserStableRate(balance, rateBefore, amount, rateNew) == AverageStableRate(rateBefore, balance, amount, rateNew)
  {
    assert balance * rateBefore == rateBefore * balance && amount * rateNew == rateNew * amount;
  }

  /** Adding debt keeps the average between the old average and the new rate. */
  lemma AverageIsBetween(average: int, total: int, change: int, rate: int)
    requires average >= 0 && total >= 0 && change >= 0 && rate >= 0 && total + change > 0
    ensures var low := if average <= rate then average else rate;
            var high := if average <= rate then rate else average;
            low <= AverageStableRate(average, total, change, rate) <= high
  {
    var low := if average <= rate then average else rate;
    var high := if average <= rate then rate else average;
    var s := total + change;
    MulMono(low, average, total);
    MulMono(low, rate, change);
    MulMono(average, high, total);
    MulMono(rate, high, change);
    MulMono(0, low, total);
    MulMono(0, low, change);
    var w := average * total + rate * change;
    assert low * s <= w <= high * s by {
      assert low * s == low * total + low * change;
      assert high * s == high * total + high * change;
    }
    TruncDivSigned(w, s);
    hide TruncDiv;
    QuotientBetween(low, high, s, TruncDiv(w, s), w);
  }

  lemma QuotientBetween(low: int, high: int, s: int, q: int, w: int)
    requires s > 0 && low * s <= w <= high * s && s * q <= w < s * q + s
    ensures low <= q <= high
  {
    if q < low {
      MulMono(q + 1, low, s);
      assert false;
    }
    if q > high {
      MulMono(high + 1, q, s);
      assert false;
    }
  }

  lemma AverageNonnegative(average: int, total: int, change: int, rate: int)
    requires average >= 0 && total >= 0 && change >= 0 && rate >= 0
    ensures AverageStableRate(average, total, change, rate) >= 0
  {
    if total + change > 0 {
      AverageIsBetween(average, total, change, rate);
    }
  }

  /** Nothing changed, nothing moves, unless there was no debt to average over. */
  lemma AverageUnchanged(average: int, total: int, rate: int)
    requires average >= 0 && total > 0
    ensures AverageStableRate(average, total, 0, rate) == average
  {
    MulMono(0, average, total);
    assert rate * 0 == 0 && average * total == total * average;
    TruncDivBracket(average * total, total, average);
  }

  /** A rate that, on a total, has a weight of debt times rate, to the unit of the rate. */
  predicate Weighs(rate: int, total: int, weight: int) {
    total * rate <= weight < total * rate + total
  }

  /** Adding debt adds its weight, at its own rate. */
  lemma AddBracket(average: int, total: int, amount: int, rate: int)
    requires average >= 0 && total >= 0 && amount >= 0 && rate >= 0 && total + amount > 0
    ensures Weighs(AverageStableRate(average, total, amount, rate), total + amount, average * total + rate * amount)
  {
    MulMono(0, average, total);
    MulMono(0, rate, amount);
    TruncDivSigned(average * total + rate * amount, total + amount);
    hide TruncDiv;
  }

  /** Removing debt takes its weight away, at its own rate; what is left may be negative, and is then
      rounded toward zero. */
  lemma RemoveBracket(average: int, total: int, amount: int, rate: int)
    requires total > amount
    ensures var v := average * total - rate * amount;
            var q := AverageStableRate(average, total, -amount, rate);
            && (v >= 0 ==> q >= 0 && Weighs(q, total - amount, v))
            && (v <= 0 ==> q <= 0 && Weighs(-q, total - amount, -v))
  {
    assert average * total + rate * (-amount) == average * total - rate * amount;
    TruncDivSigned(average * total + rate * (-amount), total + -amount);
    var q := AverageStableRate(average, total, -amount, rate);
    hide TruncDiv;
    assert (total - amount) * (-q) == -((total - amount) * q);
  }

  /** Adding an amount and removing it again at the same rate never leaves more weighted debt than
      there was, and the average it loses is at most ceil((total + amount - 1) / total). */
  lemma AddThenRemove(average: int, total: int, amount: int, rate: int)
    requires average >= 0 && total > 0 && amount >= 0 && rate >= 0
    ensures var added := AverageStableRate(average, total, amount, rate);
            var back := AverageStableRate(added, total + amount, -amount, rate);
            back <= average && total * back <= total * average && total * (average - back) <= 2 * total + amount - 2
  {
    hide AverageStableRate, TruncDiv;
    var added := AverageStableRate(average, total, amount, rate);
    AddBracket(average, total, amount, rate);
    RemoveBracket(added, total + amount, amount, rate);
    RestoredAverage(average, total, total + amount, AverageStableRate(added, total + amount, -amount, rate),
                    (total + amount) * added - rate * amount);
  }

  lemma RestoredAverage(average: int, total: int, s: int, back: int, v: int)
    requires total > 0 && average * total - (s - 1) <= v <= average * total
    requires v >= 0 ==> Weighs(back, total, v)
    requires v <= 0 ==> Weighs(-back, total, -v)
    requires average >= 0
    ensures back <= average && total * back <= total * average
    ensures total * (average - back) <= total + s - 2
  {
    assert average * total == total * average;
    assert total * (-back) == -(total * back);
    assert total * (average - back) == total * average - total * back;
    if back > average {
      MulMono(average + 1, back, total);
      MulMono(0, average, total);
      assert false;
    }
    MulMono(back, average, total);
  }

  /** An amount of debt at its own rate can be taken off a total: it is all of it, or less and weighs less
      than the total at the average by more than the truncation hides. */
  predicate Removable(average: int, total: int, amount: int, rate: int) {
    amount == total || (amount < total && rate * amount < average * total + (total - amount))
  }

  /** Removing debt at a user's own rate leaves a nonnegative average exactly when that debt is all
      there is, or weighs less than the total by more than the truncation hides; when it is more than
      there is, exactly when it weighs more, or falls short by less than the truncation hides. */
  lemma RemovalNonnegativeIff(average: int, total: int, amount: int, rate: int)
    ensures AverageStableRate(average, total, -amount, rate) >= 0
            <==> || Removable(average, total, amount, rate)
                 || (amount > total && average * total < rate * amount + (amount - total))
  {
    var w := average * total - rate * amount;
    assert average * total + rate * (-amount) == w by { assert rate * (-amount) == -(rate * amount); }
    if amount < total {
      TruncDivSigned(w, total - amount);
    } else if amount > total {
      TruncDivSigned(-w, amount - total);
      OppositeSigns(w, amount - total);
    }
  }

  /** Changing both signs changes no quotient. */
  lemma OppositeSigns(a: int, b: int)
    requires b > 0
    ensures TruncDiv(a, -b) == TruncDiv(-a, b)
  {}
}
