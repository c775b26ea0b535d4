/** What the events of a rebasing token must carry, so that replaying them gives the balance. The
    supply token and the variable debt token follow the same rule: supply and borrow mint, withdrawal
    and repayment burn. */
module TokenEvents {
  import opened WadRayMath

  datatype TokenEvent =
    | Mint(value: int, balanceIncrease: int, index: int)
    | Burn(value: int, balanceIncrease: int, index: int)
    | TransferOut(value: int)
    | TransferIn(value: int)
  {
    function SignedValue(): int {
      match this
      case Mint(value, _, _) => value
      case Burn(value, _, _) => -value
      case TransferOut(value) => -value
      case TransferIn(value) => value
    }
  }

  function SignedSum(events: seq<TokenEvent>): int {
    if events == [] then 0 else SignedSum(events[..|events| - 1]) + events[|events| - 1].SignedValue()
  }

  function BalanceIncrease(scaledBalance: int, indexBefore: int, indexAfter: int): int {
    RayMul(scaledBalance, indexAfter) - RayMul(scaledBalance, indexBefore)
  }

  /** A holder's scaled balance and the index it was last touched at, zero for one who never held any. */
  datatype Holding = Holding(scaled: int, previousIndex: int) {
    predicate Valid() {
      scaled >= 0 && previousIndex >= 0
    }

    function Balance(): int {
      RayMul(scaled, previousIndex)
    }
  }

  /** One holder's side of an action. */
  datatype Movement =
    | Supply(amount: int, index: int)
    | Withdraw(amount: int, index: int)
    | Send(amount: int, index: int)
    | Receive(amount: int, index: int)
    | SendToSelf(amount: int, index: int)

  predicate Possible(h: Holding, m: Movement) {
    && h.Valid() && m.amount >= 0 && m.index > 0 && m.index >= h.previousIndex
    && (m.Withdraw? || m.Send? ==> RayDiv(m.amount, m.index) <= h.scaled)
  }

  function Moved(h: Holding, m: Movement): Holding
    requires m.index > 0
  {
    var delta := RayDiv(m.amount, m.index);
    match m
    case Supply(_, index) => Holding(h.scaled + delta, index)
    case Receive(_, index) => Holding(h.scaled + delta, index)
    case Withdraw(_, index) => Holding(h.scaled - delta, index)
    case Send(_, index) => Holding(h.scaled - delta, index)
    case SendToSelf(_, index) => Holding(h.scaled, index)
  }

  /** What the amount itself does to the balance, before any interest. */
  function SignedAmount(m: Movement): int {
    match m
    case Supply(amount, _) => amount
    case Receive(amount, _) => amount
    case Withdraw(amount, _) => -amount
    case Send(amount, _) => -amount
    case SendToSelf(_, _) => 0
  }

  function MintIncrease(increase: int, index: int): seq<TokenEvent> {
    if increase > 0 then [Mint(increase, increase, index)] else []
  }

  /** The events the holder sees. */
  function Events(h: Holding, m: Movement): seq<TokenEvent> {
    var increase := BalanceIncrease(h.scaled, h.previousIndex, m.index);
    match m
    case Supply(amount, index) => [Mint(amount + increase, increase, index)]
    case Withdraw(amount, index) =>
      if increase > amount then [Mint(increase - amount, increase, index)] else [Burn(amount - increase, increase, index)]
    case Send(amount, index) => [TransferOut(amount)] + MintIncrease(increase, index)
    case Receive(amount, index) => [TransferIn(amount)] + MintIncrease(increase, index)
    case SendToSelf(amount, index) => [TransferOut(amount), TransferIn(amount)] + MintIncrease(increase, index)
  }

  // ---------------------------------------------------------------------------
  // Single movements
  // ---------------------------------------------------------------------------

  lemma SumsOfFew(a: TokenEvent, b: TokenEvent, c: TokenEvent)
    ensures SignedSum([a]) == a.SignedValue()
    ensures SignedSum([a, b]) == a.SignedValue() + b.SignedValue()
    ensures SignedSum([a, b, c]) == a.SignedValue() + b.SignedValue() + c.SignedValue()
  {
    assert [a][..0] == [];
    assert [a, b][..1] == [a];
    assert [a, b, c][..2] == [a, b];
  }

  /** Every event carries a nonnegative value, and whichever branch was taken the values amount to
      what moved plus the interest of the old balance. */
  lemma EventsCarryTheMovement(h: Holding, m: Movement)
    requires Possible(h, m)
    ensures SignedSum(Events(h, m)) == SignedAmount(m) + BalanceIncrease(h.scaled, h.previousIndex, m.index)
    ensures forall k :: 0 <= k < |Events(h, m)| ==> Events(h, m)[k].value >= 0
  {
    hide RayMul, RayDiv;
    var increase := BalanceIncrease(h.scaled, h.previousIndex, m.index);
    RayMulMonotone(h.scaled, h.scaled, h.previousIndex, m.index);
    var es := Events(h, m);
    if |es| == 1 {
      SumsOfFew(es[0], es[0], es[0]);
      assert es == [es[0]];
    } else if |es| == 2 {
      SumsOfFew(es[0], es[1], es[1]);
      assert es == [es[0], es[1]];
    } else {
      SumsOfFew(es[0], es[1], es[2]);
      assert es == [es[0], es[1], es[2]];
    }
  }

  /** An event that states interest states all of it: the step from the balance before to what the same
      scaled balance is worth at the index it names. */
  predicate StatesIncrease(e: TokenEvent, h: Holding, m: Movement) {
    e.Mint? || e.Burn? ==> e.index == m.index && h.Balance() + e.balanceIncrease == RayMul(h.scaled, m.index)
  }

  /** Which events a movement leaves: a supply mints the amount and the interest; a withdrawal leaves one
      event, a burn of the amount less the interest unless the interest is more; a transfer carries its
      amount, and mints the interest on the side if there is any. */
  lemma EventsStateTheIncrease(h: Holding, m: Movement)
    requires Possible(h, m)
    ensures forall k :: 0 <= k < |Events(h, m)| ==> StatesIncrease(Events(h, m)[k], h, m)
    ensures var es, interest := Events(h, m), RayMul(h.scaled, m.index) - h.Balance();
            && (m.Supply? ==> |es| == 1 && es[0].Mint? && es[0].value == m.amount + interest)
            && (m.Withdraw? ==>
                  |es| == 1 && (es[0].Mint? <==> interest > m.amount) && (es[0].Burn? <==> interest <= m.amount)
                  && es[0].value == Abs(interest - m.amount))
            && (m.Send? ==> es[0] == TransferOut(m.amount) && es[1..] == MintIncrease(interest, m.index))
            && (m.Receive? ==> es[0] == TransferIn(m.amount) && es[1..] == MintIncrease(interest, m.index))
            && (m.SendToSelf? ==>
                  es[..2] == [TransferOut(m.amount), TransferIn(m.amount)] && es[2..] == MintIncrease(interest, m.index))
            && (MintIncrease(interest, m.index) == [] <==> interest == 0)
  {
    hide RayMul, RayDiv;
    RayMulMonotone(h.scaled, h.scaled, h.previousIndex, m.index);
  }

  lemma MovedBalance(h: Holding, m: Movement)
    requires Possible(h, m)
    ensures Moved(h, m).Valid()
    ensures 2 * RAY * Abs(RayMul(h.scaled, m.index) + SignedAmount(m) - Moved(h, m).Balance()) <= m.index + 2 * RAY
  {
    hide RayMul, RayDiv;
    var delta := RayDiv(m.amount, m.index);
    RayDivBounds(m.amount, m.index);
    if m.Supply? || m.Receive? {
      ScaledStep(h.scaled, m.amount, m.index);
    } else if m.Withdraw? || m.Send? {
      ScaledStep(h.scaled - delta, m.amount, m.index);
    }
  }

  /** One movement's events move a replayed balance to the new one, up to half an index and one unit. */
  lemma EventsTrackBalance(h: Holding, m: Movement)
    requires Possible(h, m)
    ensures Moved(h, m).Valid()
    ensures 2 * RAY * Abs(h.Balance() + SignedSum(Events(h, m)) - Moved(h, m).Balance()) <= m.index + 2 * RAY
  {
    hide RayMul, RayDiv, SignedSum, Events, Moved, Possible, SignedAmount;
    EventsCarryTheMovement(h, m);
    MovedBalance(h, m);
  }

  // ---------------------------------------------------------------------------
  // Runs
  // ---------------------------------------------------------------------------

  function End(h: Holding, ms: seq<Movement>): Holding
    requires forall k :: 0 <= k < |ms| ==> ms[k].index > 0
  {
    if ms == [] then h else Moved(End(h, ms[..|ms| - 1]), ms[|ms| - 1])
  }

  predicate PossibleRun(h: Holding, ms: seq<Movement>) {
    h.Valid() && (ms != [] ==>
      && PossibleRun(h, ms[..|ms| - 1])
      && (forall k :: 0 <= k < |ms| ==> ms[k].index > 0)
      && Possible(End(h, ms[..|ms| - 1]), ms[|ms| - 1]))
  }

  /** The log a run leaves: the events of its movements, in order. */
  function Log(h: Holding, ms: seq<Movement>): seq<TokenEvent>
    requires forall k :: 0 <= k < |ms| ==> ms[k].index > 0
  {
    if ms == [] then [] else Log(h, ms[..|ms| - 1]) + Events(End(h, ms[..|ms| - 1]), ms[|ms| - 1])
  }

  lemma {:induction false} SignedSumAppends(a: seq<TokenEvent>, b: seq<TokenEvent>)
    ensures SignedSum(a + b) == SignedSum(a) + SignedSum(b)
  {
    if b == [] {
      assert a + b == a;
    } else {
      var init, last := b[..|b| - 1], b[|b| - 1];
      SignedSumAppends(a, init);
      assert (a + b)[..|a + b| - 1] == a + init;
      assert (a + b)[|a + b| - 1] == last;
    }
  }

  /** Replaying the log of any run reconstructs the balance: after k movements the signed event values
      are off by at most k * (1 + index / (2 * RAY)), at the last index. */
  lemma {:induction false} ReplayReconstructsBalance(h: Holding, ms: seq<Movement>)
    requires PossibleRun(h, ms)
    ensures forall k :: 0 <= k < |ms| ==> ms[k].index > 0
    ensures End(h, ms).Valid() && End(h, ms).previousIndex >= h.previousIndex
    ensures 2 * RAY * Abs(h.Balance() + SignedSum(Log(h, ms)) - End(h, ms).Balance())
            <= |ms| * (End(h, ms).previousIndex + 2 * RAY)
  {
    hide RayMul, RayDiv, Events, Possible, Moved, Holding.Balance, Holding.Valid;
    if ms == [] {
      assert Log(h, ms) == [] && SignedSum([]) == 0 && End(h, ms) == h;
    } else {
      var init, m := ms[..|ms| - 1], ms[|ms| - 1];
      ReplayReconstructsBalance(h, init);
      var before, after := End(h, init), End(h, ms);
      PossibleIndex(before, m);
      EventsTrackBalance(before, m);
      SignedSumAppends(Log(h, init), Events(before, m));
      hide SignedSum, Log, End, PossibleRun;
      ReplayError(|init|, before.previousIndex, after.previousIndex,
                  h.Balance() + SignedSum(Log(h, init)) - before.Balance(),
                  before.Balance() + SignedSum(Events(before, m)) - after.Balance());
    }
  }

  /** From a holder's very first event on, the values of the log alone sum to the balance. */
  lemma WholeLogGivesBalance(ms: seq<Movement>)
    requires PossibleRun(Holding(0, 0), ms)
    ensures forall k :: 0 <= k < |ms| ==> ms[k].index > 0
    ensures 2 * RAY * Abs(SignedSum(Log(Holding(0, 0), ms)) - End(Holding(0, 0), ms).Balance())
            <= |ms| * (End(Holding(0, 0), ms).previousIndex + 2 * RAY)
  {
    var h := Holding(0, 0);
    assert h.Balance() == 0 by { RayMulUnit(0); }
    hide RayMul, SignedSum, Log, End, PossibleRun, Holding.Balance;
    ReplayReconstructsBalance(h, ms);
  }

  lemma ReplayError(n: nat, i: int, i': int, e: int, e': int)
    requires i <= i' && 2 * RAY * Abs(e) <= n * (i + 2 * RAY) && 2 * RAY * Abs(e') <= i' + 2 * RAY
    ensures 2 * RAY * Abs(e + e') <= (n + 1) * (i' + 2 * RAY)
  {
    MulMono(i + 2 * RAY, i' + 2 * RAY, n);
    assert (n + 1) * (i' + 2 * RAY) == n * (i' + 2 * RAY) + i' + 2 * RAY;
  }

  lemma PossibleIndex(h: Holding, m: Movement)
    requires Possible(h, m)
    ensures Moved(h, m).previousIndex == m.index >= h.previousIndex
  {}

  // ---------------------------------------------------------------------------
  // At a fixed index: scaled balances refine a plain ledger
  // ---------------------------------------------------------------------------

  function PlainSum(ms: seq<Movement>): int {
    if ms == [] then 0 else PlainSum(ms[..|ms| - 1]) + SignedAmount(ms[|ms| - 1])
  }

  lemma DriftOfOne(n: nat, index: int, s: int, delta: int, plain: int, amount: int)
    requires 2 * Abs(index * s - RAY * plain) <= n * index && 2 * Abs(index * delta - RAY * amount) <= index
    ensures 2 * Abs(index * (s + delta) - RAY * (plain + amount)) <= (n + 1) * index
    ensures 2 * Abs(index * (s - delta) - RAY * (plain - amount)) <= (n + 1) * index
    ensures n * index <= (n + 1) * index
  {
    assert (n + 1) * index == n * index + index;
    assert index * (s + delta) == index * s + index * delta;
    assert index * (s - delta) == index * s - index * delta;
  }

  lemma {:induction false} ScaledDrift(ms: seq<Movement>, index: int)
    requires index > 0
    requires forall k :: 0 <= k < |ms| ==> ms[k].index == index && ms[k].amount >= 0
    ensures 2 * Abs(index * End(Holding(0, index), ms).scaled - RAY * PlainSum(ms)) <= |ms| * index
  {
    hide RayMul, RayDiv;
    if ms == [] {
      assert End(Holding(0, index), ms).scaled == 0 && PlainSum(ms) == 0;
    } else {
      var init, m := ms[..|ms| - 1], ms[|ms| - 1];
      ScaledDrift(init, index);
      var s, delta := End(Holding(0, index), init).scaled, RayDiv(m.amount, index);
      assert End(Holding(0, index), ms).scaled == Moved(End(Holding(0, index), init), m).scaled;
      assert PlainSum(ms) == PlainSum(init) + SignedAmount(m);
      RayDivBounds(m.amount, index);
      hide End, PlainSum;
      DriftOfOne(|init|, index, s, delta, PlainSum(init), m.amount);
    }
  }

  /** After any n movements at one index, the rebased balance is the exact running sum up to half an
      index a movement and half a unit. */
  lemma ScaledRefinesPlainLedger(ms: seq<Movement>, index: int)
    requires index > 0
    requires forall k :: 0 <= k < |ms| ==> ms[k].index == index && ms[k].amount >= 0
    requires End(Holding(0, index), ms).scaled >= 0
    ensures 2 * RAY * Abs(RayMul(End(Holding(0, index), ms).scaled, index) - PlainSum(ms)) <= |ms| * index + RAY
  {
    hide RayMul, RayDiv, End, PlainSum;
    ScaledDrift(ms, index);
    var s := End(Holding(0, index), ms).scaled;
    RayMulBounds(s, index);
    assert s * index == index * s;
  }

  // ---------------------------------------------------------------------------
  // The token in place
  // ---------------------------------------------------------------------------

  /** A holder's account, updated by the transactions the events are checked against. */
  class Account {
    var scaledBalance: int
    var previousIndex: int

    constructor (scaled: int, index: int)
      ensures State() == Holding(scaled, index)
    {
      scaledBalance, previousIndex := scaled, index;
    }

    function State(): Holding
      reads this
    {
      Holding(scaledBalance, previousIndex)
    }

    /** Reads the index before, supplies, and works the expected event out from what is there after. */
    method Supply(amount: int, indexAfter: int) returns (event: TokenEvent)
      requires Possible(State(), Movement.Supply(amount, indexAfter))
      modifies this
      ensures State() == Moved(old(State()), Movement.Supply(amount, indexAfter))
      ensures [event] == Events(old(State()), Movement.Supply(amount, indexAfter))
    {
      var indexBefore := previousIndex;
      scaledBalance := scaledBalance + RayDiv(amount, indexAfter);
      previousIndex := indexAfter;
      var addedScaledBalance := RayDiv(amount, indexAfter);
      var scaled := scaledBalance - addedScaledBalance;
      var increase := BalanceIncrease(scaled, indexBefore, indexAfter);
      event := Mint(amount + increase, increase, indexAfter);
    }

    method Withdraw(amount: int, indexAfter: int) returns (event: TokenEvent)
      requires Possible(State(), Movement.Withdraw(amount, indexAfter))
      modifies this
      ensures State() == Moved(old(State()), Movement.Withdraw(amount, indexAfter))
      ensures [event] == Events(old(State()), Movement.Withdraw(amount, indexAfter))
    {
      var indexBefore := previousIndex;
      scaledBalance := scaledBalance - RayDiv(amount, indexAfter);
      previousIndex := indexAfter;
      var addedScaledBalance := RayDiv(amount, indexAfter);
      var scaled := scaledBalance + addedScaledBalance;
      var increase := BalanceIncrease(scaled, indexBefore, indexAfter);
      if increase > amount {
        event := Mint(increase - amount, increase, indexAfter);
      } else {
        event := Burn(amount - increase, increase, indexAfter);
      }
    }

    /** A transfer between two accounts, or of an account to itself, with what each side's log gains. */
    method Transfer(to: Account, amount: int, indexAfter: int) returns (fromLog: seq<TokenEvent>, toLog: seq<TokenEvent>)
      requires this != to ==> Possible(State(), Send(amount, indexAfter))
      requires this != to ==> Possible(to.State(), Receive(amount, indexAfter))
      requires this == to ==> Possible(State(), SendToSelf(amount, indexAfter))
      modifies this, to
      ensures this != to ==>
                && State() == Moved(old(State()), Send(amount, indexAfter))
                && to.State() == Moved(old(to.State()), Receive(amount, indexAfter))
                && fromLog == Events(old(State()), Send(amount, indexAfter))
                && toLog == Events(old(to.State()), Receive(amount, indexAfter))
      ensures this == to ==>
                && State() == Moved(old(State()), SendToSelf(amount, indexAfter))
                && fromLog == Events(old(State()), SendToSelf(amount, indexAfter)) && toLog == []
      ensures scaledBalance + to.scaledBalance == old(scaledBalance) + old(to.scaledBalance)
    {
      var fromPreviousIndex, toPreviousIndex := previousIndex, to.previousIndex;
      var moved := RayDiv(amount, indexAfter);
      scaledBalance := scaledBalance - moved;
      to.scaledBalance := to.scaledBalance + moved;
      previousIndex := indexAfter;
      to.previousIndex := indexAfter;
      var delta := if this == to then 0 else moved;
      var fromScaled := scaledBalance + delta;
      var toScaled := to.scaledBalance - delta;
      var fromIncrease := BalanceIncrease(fromScaled, fromPreviousIndex, indexAfter);
      var toIncrease := BalanceIncrease(toScaled, toPreviousIndex, indexAfter);
      fromLog := [TransferOut(amount)];
      toLog := [];
      if this == to {
        fromLog := fromLog + [TransferIn(amount)];
      } else {
        toLog := [TransferIn(amount)];
      }
      if fromIncrease > 0 {
        fromLog := fromLog + [Mint(fromIncrease, fromIncrease, indexAfter)];
      }
      if this != to && toIncrease > 0 {
        toLog := toLog + [Mint(toIncrease, toIncrease, indexAfter)];
      }
    }
  }
}
