# Reserve accounting of the lending pool

A reserve of the pool lends what suppliers deposit, at a variable and at a stable rate. Its books are
kept in scaled balances and two growing indexes, in fixed-point numbers of 27 decimals ("ray") with
half-up rounding. The repository states what every pool action must do to those books in
`test-suites/helpers/utils/calculations.ts`, over the arithmetic of `wadraymath.ts`, and what token
events must carry in `tokenization-events.ts`. This project models those files and proves what the
books promise.

`C` below is `test-suites/helpers/utils/calculations.ts`.

## How the model is laid out

| file | content |
|---|---|
| `WadRayMath.dfy` | ray and percent arithmetic on signed integers, division truncating toward zero; exact rounding, order, round trips, sums over holders |
| `Interest.dfy` | linear interest, the three-term binomial for compounding, its distance to true compounding, splitting an accrual |
| `Rates.dfy` | usage ratios, the kinked rate curve, the reserve's rates, what suppliers are promised |
| `StableRate.dfy` | the average rate of stable debt as amounts come and go |
| `Accrual.dfy` | the reserve and user records, balances and indexes at a time, the treasury's share |
| `Transitions.dfy` | what each action does to a reserve, as functions on values |
| `Runs.dfy` | actions, steps, runs, and the invariant of every run |
| `Bridge.dfy` | minting and backing unbacked supply |
| `Users.dfy` | what each action does to a user's position, and agreement with the reserve |
| `Effects.dfy` | what each action leaves in a reserve, amount by amount: cash, debts, their average rate, and the debts seen later |
| `Solvency.dfy` | claims of suppliers and treasury against what the pool has and is owed |
| `TokenEvents.dfy` | mint and burn values, replaying a log, scaled balances against a plain ledger |
| `Records.dfy` | the records as mutable objects, filled field by field; each method is proved to end in the state the functions give |

Conventions. Numbers are unbounded signed integers as in the code's big-number library. A run takes each
expected record as the next action's starting record. The code leaves `lastUpdateTimestamp` unset in
most transitions and never writes `totalStableDebtLastUpdated`, and its comparer skips both
(`test-suites/helpers/actions.ts:53-63`); a step of a run (`Runs.Step`) therefore sets the first to the
time of the action, and the second whenever stable principal was rewritten, and carries the market
stable rate along. Borrow and repay are seen at their own transaction in runs. A function's
precondition excludes only what would make the code divide by zero or fail its own assertion on the
usage ratios, take out more liquidity or scaled debt than there is (the pool reverts and the calculation
is not reached), or run time backwards. A user's stable debt may exceed the reserve's total, as the code
says it can through accumulated errors (C:571-572). The market parameters of a reserve are those of a
valid configuration: ratios within one, nothing negative.

Where the code does not do what one would expect of it, the model follows the code:

- A swap out of stable debt has no clamp (C:845-863), as repaying the same debt has (C:571-593): it can
  leave a negative average rate, and a negative principal when the user's debt exceeds the reserve's
  total. `Runs.SwappedCoreSoundIff` and `Runs.SwapValidIff` give the exact condition, `Runs.SwapCanBreakInvariant`
  an input of either kind.
- A variable borrower's scaled debt is computed from the whole reserve's (C:675), which books what all
  others owe to the borrower: `Users.BorrowMovesBothAlikeIff`, with an input in `Users.BorrowCanMoveApart`.
- A swap to the stable rate starts from the stable debt last stored, not from the accrued one (C:955),
  which forgives the interest since: `Users.SwapToStableForgivesInterest`, with an input in
  `Users.SwapToStableCanForgive`.
- A deposit overwrites the user's stable principal with the variable debt (C:66-79), and a variable
  repayment exchanges the two stable fields (C:763-764): `Users.DepositOverwritesPrincipal` and
  `Users.VariableRepayExchangesStable` state what comes of it.
- A swap to the stable rate weighs the average with the total of the record before, not with the
  accrued total (C:877-882).
- A curve that jumps down at its kink is accepted: `Rates.CurveMonotoneIff`, with an input in `Rates.CurveCanJumpDown`.

## Model

| member | source | states |
|---|---|---|
| WadRayMath.TruncDivSigned | test-suites/helpers/utils/wadraymath.ts:54-57 | the library's division rounds toward zero for either sign, and is negative exactly from minus one divisor on |
| WadRayMath.RayMulNearest | test-suites/helpers/utils/wadraymath.ts:50-52 | a product is the one nearest integer, ties up |
| WadRayMath.RayDivNearest | test-suites/helpers/utils/wadraymath.ts:54-57 | a quotient is the one nearest integer, by one formula for odd and even divisors |
| WadRayMath.PercentMulBounds | test-suites/helpers/utils/wadraymath.ts:59-61 | a percentage is rounded to the nearest unit and never exceeds the whole |
| WadRayMath.RayMulMonotone | test-suites/helpers/utils/wadraymath.ts:50-52 | products grow with both factors in spite of rounding |
| WadRayMath.RayDivMonotone | test-suites/helpers/utils/wadraymath.ts:54-57 | quotients grow with the numerator and shrink with the denominator, whatever the parities |
| WadRayMath.RayDivScale | test-suites/helpers/utils/wadraymath.ts:54-57 | a common factor of both operands cancels exactly |
| WadRayMath.WadScalingCancels | test-suites/helpers/utils/calculations.ts:246-247 | scaling both operands to rays leaves the quotient unchanged |
| WadRayMath.WadRoundTrip | test-suites/helpers/utils/wadraymath.ts:68-75 | converting to rays and back returns the amount |
| WadRayMath.ScaleThenRebase | test-suites/helpers/utils/wadraymath.ts:50-57 | scaling by an index and rebasing moves an amount by at most half an index and half a unit |
| WadRayMath.RebaseThenScale | test-suites/helpers/utils/wadraymath.ts:50-57 | rebasing a scaled balance and scaling it again is the identity from index one on |
| WadRayMath.FullExitExactIffIndexAtLeastOne | test-suites/helpers/utils/wadraymath.ts:50-57 | that identity holds for all balances exactly when the index is at least one |
| WadRayMath.ScaledStep | test-suites/helpers/utils/calculations.ts:1099-1108 | adding a scaled amount moves the rebased balance by the amount within half an index and a unit |
| WadRayMath.HoldersSumToTotal | test-suites/helpers/utils/calculations.ts:1164-1166 | for any number of holders, their balances sum to the rebased total within half a unit a holder |
| WadRayMath.HoldersBoundIsTight | test-suites/helpers/utils/calculations.ts:1469-1474 | that bound is attained for every even number of holders |
| Interest.BinomialForm | test-suites/helpers/utils/calculations.ts:1204-1229 | the expansion is RAY plus interest plus binomial multiples of the base powers: both inner divisions are exact, for every number of seconds |
| Interest.LinearToTheUnit | test-suites/helpers/utils/calculations.ts:1192-1202 | linear interest is the rate for the time, truncated to the unit |
| Interest.BasePowersFloors | test-suites/helpers/utils/calculations.ts:1216-1219 | the base powers miss the powers of the rate per second by less than one unit each |
| Interest.CompoundedAtLeastLinear | test-suites/helpers/utils/calculations.ts:1192-1229 | compounding pays at least linear interest, which never shrinks a balance |
| Interest.CompoundedMonotone | test-suites/helpers/utils/calculations.ts:1204-1229 | more time and a higher rate compound to at least as much |
| Interest.CompoundedIsLinearAndMore | test-suites/helpers/utils/calculations.ts:1192-1229 | compounded interest is linear interest and the interest on interest |
| Interest.InterestOnInterestGrows | test-suites/helpers/utils/calculations.ts:1216-1228 | which is never negative and never falls with time, so between any two moments compounding adds at least simple interest |
| Interest.BinomialLowerBound | test-suites/helpers/utils/calculations.ts:1216-1228 | true compounding is at least the first four terms of its expansion |
| Interest.BinomialRemainder | test-suites/helpers/utils/calculations.ts:1216-1228 | what four terms of the expansion leave out is at most a fourth binomial multiple of true compounding |
| Interest.NeverOvercharges | test-suites/helpers/utils/calculations.ts:1204-1229 | the approximation exceeds true per-second compounding by at most the rounding of its base powers |
| Interest.NeverUnderchargesMuch | test-suites/helpers/utils/calculations.ts:1204-1229 | the approximation falls short of true per-second compounding by at most a fourth binomial multiple and the truncation of its terms |
| Interest.LinearSplit | test-suites/helpers/utils/calculations.ts:1192-1202 | accruing linear interest in two stretches loses at most one unit |
| Interest.LinearSplitLossIsOne | test-suites/helpers/utils/calculations.ts:1192-1202 | one unit is really lost on some input |
| Interest.CompoundedSplitProduct | test-suites/helpers/utils/calculations.ts:1204-1229 | two compounded stretches multiplied fall short of one by at most an explicit loss |
| Interest.CompoundedSplit | test-suites/helpers/utils/calculations.ts:1204-1229 | the same after rounding the product |
| Interest.IndexSplit | test-suites/helpers/utils/calculations.ts:1424-1452 | a loss between interest factors becomes an explicit loss between indexes |
| Rates.UsageFallsWithLiquidity | test-suites/helpers/utils/calculations.ts:1351-1369 | usage falls as liquidity grows, hence supply usage is never above borrow usage |
| Rates.UsageRisesWithDebt | test-suites/helpers/utils/calculations.ts:1357-1364 | usage never falls as debt grows, though both operands of the quotient do |
| Rates.UsageIsShareOfDebt | test-suites/helpers/utils/calculations.ts:1351-1369 | usage is the nearest ratio to the debt's share of debt and liquidity |
| Rates.CurveMonotoneIff | test-suites/helpers/utils/calculations.ts:1258-1304 | the curve never falls with usage exactly when it has no downward jump at its kink |
| Rates.CurveBoundedIff | test-suites/helpers/utils/calculations.ts:1258-1304 | the curve stays within its two slopes exactly when the kink does |
| Rates.CurveBelowOptimal | test-suites/helpers/utils/calculations.ts:1293-1304 | up to the optimal ratio the curve is the first slope's part of the usage, within RAY / (2 optimal) + 1 / 2 |
| Rates.CurveAboveOptimal | test-suites/helpers/utils/calculations.ts:1273-1292 | beyond it, the first slope and the second slope's part of the excess usage, within explicit rounding |
| Rates.CurveCanJumpDown | test-suites/helpers/utils/calculations.ts:1258-1304 | a valid strategy whose variable rate falls by one unit as usage passes the optimal ratio |
| Rates.UpperBranch | test-suites/helpers/utils/calculations.ts:1273-1292 | above the kink the curve climbs from the first slope to both slopes, reached at full usage |
| Rates.JumpAtKinkIsSmall | test-suites/helpers/utils/calculations.ts:1293-1304 | for any slope the kink misses the slope by at most RAY / (2 optimal) + 1 / 2 |
| Rates.WholeProductHasNoJump | test-suites/helpers/utils/calculations.ts:1273-1304 | when RAY divides slope times optimal, the kink is the slope and nothing jumps down |
| Rates.DeployedStrategiesAreSmooth | markets/eth/rateStrategies.ts:4-41 | all strategies of the market are of that kind |
| Rates.LiquidityLowersBorrowRates | test-suites/helpers/utils/calculations.ts:1231-1328 | at fixed debts, more liquidity never raises a borrow rate and taking it never lowers one |
| Rates.DebtRaisesVariableRate | test-suites/helpers/utils/calculations.ts:1273-1304 | more debt never lowers the variable rate |
| Rates.ExcessOffsetRises | test-suites/helpers/utils/calculations.ts:1306-1315 | the surcharge for stable debt rises with its share, from nothing up to the optimal share to the whole offset at share one |
| Rates.ShareIsPartOfDebt | test-suites/helpers/utils/calculations.ts:1269-1271 | the stable share is the nearest ratio to the stable debt's part of all debt |
| Rates.RatesFollowCurves | test-suites/helpers/utils/calculations.ts:1231-1315 | both borrow rates lie on their own two lines, at the usage of the available liquidity, and what stable debt adds lies on the line of its surcharge |
| Rates.RatesWithoutDebt | test-suites/helpers/utils/calculations.ts:1231-1328 | without debt the base and market rates are offered and suppliers earn nothing |
| Rates.RatesAtFullUsage | test-suites/helpers/utils/calculations.ts:1273-1315 | with nothing left to lend both slopes apply in full, and the surcharge when all debt is stable |
| Rates.OverallRateIsWeightedAverage | test-suites/helpers/utils/calculations.ts:1330-1349 | the overall rate on all debt is what both kinds pay, within half the debt and one wad |
| Rates.LiquidityRateBelowOverall | test-suites/helpers/utils/calculations.ts:1323-1325 | the liquidity rate is never negative, at most the overall rate, and zero without usage; what it amounts to is SuppliersPaidFromBorrowers |
| Rates.SuppliersPaidFromBorrowers | test-suites/helpers/utils/calculations.ts:1317-1369 | what suppliers are promised is the borrowers' interest less the reserve factor, no more and no less, up to an explicit rounding |
| Rates.SuppliersPaidFromInterest | test-suites/helpers/utils/calculations.ts:1231-1349 | the same from both sides for the rates just computed, down to the interest of both kinds of debt |
| StableRate.UserRateIsAverage | test-suites/helpers/utils/calculations.ts:1415-1422 | the user's averaging rule is the reserve's |
| StableRate.AddBracket | test-suites/helpers/utils/calculations.ts:1122-1135 | adding debt adds its weight at its own rate to the average's, to the unit of the rate |
| StableRate.RemoveBracket | test-suites/helpers/utils/calculations.ts:1122-1135 | removing debt takes its weight away, truncated toward zero whatever the sign of what is left |
| StableRate.AverageIsBetween | test-suites/helpers/utils/calculations.ts:1122-1135 | adding debt keeps the average between old average and new rate |
| StableRate.AddThenRemove | test-suites/helpers/utils/calculations.ts:1122-1135 | adding and removing at one rate never raises the weighted debt and loses at most ceil((total + amount - 1) / total) of the average |
| StableRate.RemovalNonnegativeIff | test-suites/helpers/utils/calculations.ts:1122-1135 | for any amounts and rates, when removing debt leaves a nonnegative average: it is all there is, or less and its weight fits, or more and the total's weight does not |
| Accrual.IndexesNeverFall | test-suites/helpers/utils/calculations.ts:1424-1452 | accrual never lowers an index |
| Accrual.IndexesGrowWithTime | test-suites/helpers/utils/calculations.ts:1424-1452 | the later the time accrued to, the higher both indexes |
| Accrual.SupplyIndexEarns | test-suites/helpers/utils/calculations.ts:1424-1437 | the supply index earns the liquidity rate for the time, from both sides, up to one unit of the factor and half a unit |
| Accrual.BorrowIndexCompounds | test-suites/helpers/utils/calculations.ts:1439-1452 | the borrow index compounds the variable rate while anything is owed at it, within half a unit, and rests otherwise |
| Accrual.StableDebtGrows | test-suites/helpers/utils/calculations.ts:1454-1467 | stable debt is at least its principal and never falls with time |
| Accrual.AccruedDebtIsGrowth | test-suites/helpers/utils/calculations.ts:1499-1508 | the accrued debt the treasury shares in is what stable and variable debt together have grown by |
| Accrual.TreasuryAccrualSound | test-suites/helpers/utils/calculations.ts:1476-1513 | the accrued debt is the growth of all debt, neither it nor the minted share is negative, the share is at most the growth, the scaled accrual never decreases |
| Accrual.TreasuryShareExact | test-suites/helpers/utils/calculations.ts:1476-1513 | what is credited, rebased, is the reserve factor's percentage of the growth of all debt up to rounding |
| Accrual.UpdateStateKeepsSound | test-suites/helpers/utils/calculations.ts:1515-1550 | accruing keeps a reserve sound and lowers neither indexes nor debts nor the treasury's share |
| Accrual.IncomeFormsAgreeIff | test-suites/helpers/utils/calculations.ts:1371-1437 | on any reserve the two income forms agree exactly when there is usage or the rate pays no unit yet |
| Accrual.IncomeFormsAgree | test-suites/helpers/utils/calculations.ts:1371-1437 | on states of a run they always agree |
| Accrual.DebtFormsAgree | test-suites/helpers/utils/calculations.ts:1152-1167 | a user's variable debt is the scaled debt at the reserve's borrow index |
| Accrual.StableFormsAgree | test-suites/helpers/utils/calculations.ts:1169-1190 | the guarded stable balance is the unguarded one for stamped debt |
| Accrual.StableFormsAgreeIff | test-suites/helpers/utils/calculations.ts:1169-1190 | for any debt the guarded balance is the unguarded one exactly when it is stamped or would not have grown |
| Accrual.LiquidityIndexSplit | test-suites/helpers/utils/calculations.ts:1424-1437 | accruing the supply index in two steps loses at most one unit of interest and two roundings |
| Accrual.VariableBorrowIndexSplit | test-suites/helpers/utils/calculations.ts:1439-1452 | accruing the borrow index in two steps loses at most an explicit amount |
| Transitions.SettleValid | test-suites/helpers/utils/calculations.ts:1552-1587 | the end of every action leaves a valid record exactly when its debts and liquidity are sound |
| Transitions.BorrowIsCoreThenSettle | test-suites/helpers/utils/calculations.ts:363-511 | the long computation of a borrow is: change the debts, then settle like every other action; what the debts become is in Effects.StableBorrowAveragesIn and VariableBorrowScalesIn |
| Transitions.RepayStableNonnegative | test-suites/helpers/utils/calculations.ts:560-594 | a stable repayment leaves nothing negative, is not adjusted exactly when the debt can be taken off, and erases everything otherwise |
| Transitions.AccrualFrame | test-suites/helpers/utils/calculations.ts:1515-1550 | what accrual changes, and that it changes nothing else |
| Runs.DepositValid | test-suites/helpers/utils/calculations.ts:150-185 | a deposit keeps the invariant |
| Runs.WithdrawValid | test-suites/helpers/utils/calculations.ts:317-361 | a withdrawal keeps the invariant |
| Runs.MintUnbackedValid | test-suites/helpers/utils/calculations.ts:187-231 | minting unbacked supply keeps the invariant |
| Runs.BackUnbackedValid | test-suites/helpers/utils/calculations.ts:233-315 | backing keeps the invariant |
| Runs.BorrowValid | test-suites/helpers/utils/calculations.ts:363-511 | a borrow at either rate keeps the invariant |
| Runs.RepayValid | test-suites/helpers/utils/calculations.ts:513-633 | a repayment of either debt keeps the invariant |
| Runs.SwappedCoreSoundIff | test-suites/helpers/utils/calculations.ts:845-863 | the debts a swap out of stable debt leaves are sound exactly when the debt is at most the total and all of it or fitting in weight, whether or not rates can be computed from them |
| Runs.FittingSwapIsDefined | test-suites/helpers/utils/calculations.ts:845-863 | a swap that fits is always one the code gets through |
| Runs.SwapValidIff | test-suites/helpers/utils/calculations.ts:810-908 | of the swaps the code gets through, exactly those that fit keep the invariant, and all to the stable rate |
| Runs.SwapCanBreakInvariant | test-suites/helpers/utils/calculations.ts:845-863 | one concrete swap leaves a negative average rate, another, of more than the reserve's total, a negative principal |
| Runs.StepValidIff | test-suites/helpers/scenario-engine.ts:37-42 | any action the code gets through leaves a valid state exactly when it is no swap out of stable debt or the swap fits |
| Runs.StepNeverLowersIndexes | test-suites/helpers/utils/calculations.ts:1515-1550 | no action lowers an index or the treasury's share |
| Runs.ActionsLeaveAccruedIndexes | test-suites/helpers/utils/calculations.ts:1515-1550 | every action leaves the accrued borrow index, every one but backing the accrued supply index |
| Runs.RunInvariant | test-suites/helpers/scenario-engine.ts:37-42 | a run that starts valid is valid in every state, by induction over its steps, and between any two states nothing that must grow has fallen |
| Runs.RunExtends | test-suites/helpers/scenario-engine.ts:37-42 | from where a run has got to, an action the code gets through continues it exactly when it leaves a valid state |
| Runs.AttemptsStayValidIff | test-suites/helpers/scenario-engine.ts:37-42 | for whatever sequence of actions the code gets through, all states are valid exactly when every swap on the way fits |
| Runs.StateFacts | test-suites/helpers/utils/calculations.ts:1351-1369 | in a valid state: supply usage at most borrow usage at most one, liquidity and variable debt add up, no debt earns nothing |
| Runs.FreshReserveValid | test-suites/helpers/utils/interfaces/index.ts:20-46 | a fresh reserve is valid, so runs start |
| Bridge.FeeConserved | test-suites/helpers/utils/calculations.ts:241-280 | the claims of suppliers and treasury grow by exactly the fee, and the treasury's credit, rebased, is the protocol's percentage of it, each up to an explicit rounding |
| Bridge.BackingConservesValue | test-suites/helpers/utils/calculations.ts:233-315 | claims and pool both grow by the fee; backing takes exactly the amount, or all there is, off the unbacked part and puts it into liquidity; debts and average rest, the index never falls |
| Bridge.MintingTouchesOnlyUnbacked | test-suites/helpers/utils/calculations.ts:187-231 | minting moves neither debts nor their average, indexes, treasury or cash, and can only lower supply usage |
| Users.BalancesAtTheIndexesLeft | test-suites/helpers/utils/calculations.ts:1110-1167 | balances before an action were computed at the very indexes the action leaves in the reserve, the supply index of a backing aside |
| Users.DepositReadingsAgree | test-suites/helpers/utils/calculations.ts:14-82 | stated and scaled balance are what was held and the amount on top, which leaves the wallet; a first holding becomes collateral |
| Users.DepositOverwritesPrincipal | test-suites/helpers/utils/calculations.ts:64-79 | a depositor's debts are stated as accrued, and the stored stable principal becomes the variable debt |
| Users.WithdrawReadings | test-suites/helpers/utils/calculations.ts:84-148 | a withdrawal within balance and liquidity leaves what was held less the amount, in both readings, and puts it in the wallet; withdrawing everything leaves nothing and ends the use as collateral |
| Users.WithdrawKeepsDebts | test-suites/helpers/utils/calculations.ts:108-132 | a withdrawal states the debts as accrued and changes nothing stored of them |
| Users.DebtActionsKeepHolding | test-suites/helpers/utils/calculations.ts:700-711 | borrowing, repaying and swapping leave the scaled balance and its use as collateral, and state it at the index left |
| Users.RepayWithinDebtIsDefined | test-suites/helpers/utils/calculations.ts:596-601 | a repayment within the user's debt always fits in the reserve's and in the user's scaled debt |
| Users.FullVariableRepayIsExact | test-suites/helpers/utils/calculations.ts:544-601 | repaying everything removes exactly the user's share from the reserve and leaves the user none |
| Users.StableRepayReadings | test-suites/helpers/utils/calculations.ts:748-761 | repaying part of the stable debt leaves just that much less, accruing anew at the same rate |
| Users.VariableRepayReadings | test-suites/helpers/utils/calculations.ts:762-774 | repaying part of the variable debt leaves that much less, up to rounding |
| Users.VariableRepayExchangesStable | test-suites/helpers/utils/calculations.ts:763-766 | the stable fields come out exchanged: interest so far enters the principal while its stamp stays, so that time is charged again |
| Users.FullStableRepayClears | test-suites/helpers/utils/calculations.ts:544-604 | repaying all stable debt leaves the user no debt, rate or stamp, takes exactly that debt off the reserve when it fits, and erases the rest of the total when it does not |
| Users.RepayMovesDebtIntoCash | test-suites/helpers/utils/calculations.ts:552-601 | a variable repayment turns debt into as much cash, up to rounding |
| Users.RepayMovesBothAlike | test-suites/helpers/utils/calculations.ts:716-795 | user and reserve lose the same scaled debt, and the user stays within the reserve |
| Users.BorrowMovesBothAlikeIff | test-suites/helpers/utils/calculations.ts:674-677 | a variable borrow is booked alike on both sides exactly for a sole borrower; otherwise the user is booked what the others owe as well |
| Users.BorrowCanMoveApart | test-suites/helpers/utils/calculations.ts:674-677 | a concrete borrow books the user a unit more than the reserve |
| Users.VariableDebtSeenAtOnce | test-suites/helpers/utils/calculations.ts:674-697 | seen at its own transaction, a variable borrower owes the scaled debt at the index left, and the stable debt is untouched |
| Users.BorrowMovesCashIntoDebt | test-suites/helpers/utils/calculations.ts:363-511 | what is borrowed leaves the liquidity and enters the chosen debt, the stable kind to the unit |
| Users.UserStableRateIsBetween | test-suites/helpers/utils/calculations.ts:648-673 | a stable borrower's new rate carries the old debt's weight at the old rate and the amount's at the offered one, hence lies between, on a debt grown by the amount |
| Users.ReserveSwapConservesDebt | test-suites/helpers/utils/calculations.ts:821-883 | a swap keeps the reserve's total debt up to rounding, moves no liquidity, and removes exactly the user's scaled debt |
| Users.UserSwapConservesDebt | test-suites/helpers/utils/calculations.ts:910-973 | a swap to the variable rate keeps the user's total debt up to rounding and leaves no stable debt; a swap to the stable rate leaves no variable debt and exactly what the stored stable debt lacked unaccounted |
| Users.SwappedUserRate | test-suites/helpers/utils/calculations.ts:957-963 | after a swap to the stable rate the user's rate carries the weights of both debts at their rates |
| Users.SwapToStableForgivesInterest | test-suites/helpers/utils/calculations.ts:954-955 | what a swap to the stable rate forgives is the stable interest since the debt was stored: never negative, at least simple interest less a unit, nothing when just stored or without a rate |
| Users.SwapToStableCanForgive | test-suites/helpers/utils/calculations.ts:954-955 | a concrete swap forgives a year's interest |
| Users.SoleBorrowerOwesAll | test-suites/helpers/utils/calculations.ts:1152-1190 | a user who owes all of both debts on the reserve's terms owes exactly the reserve's two totals |
| Effects.DepositAddsCash | test-suites/helpers/utils/calculations.ts:150-185 | a deposit adds the amount to liquidity and moves neither debts nor claims beyond their accrual |
| Effects.WithdrawTakesCash | test-suites/helpers/utils/calculations.ts:317-361 | a withdrawal takes the amount, or the user's balance at the index left, and nothing else |
| Effects.StableBorrowAveragesIn | test-suites/helpers/utils/calculations.ts:389-415 | a stable borrow takes cash, adds the amount to the accrued stable debt, and its weight at the offered rate to that debt's weight |
| Effects.VariableBorrowScalesIn | test-suites/helpers/utils/calculations.ts:443-508 | a variable borrow takes cash, leaves the stable debt, and adds the nearest scaled debt |
| Effects.BorrowSeenLater | test-suites/helpers/utils/calculations.ts:416-442 | a borrow seen later is the reserve it left accrued to that moment, in both debts and both ratios, and all else as it was left |
| Effects.BorrowerSeenLater | test-suites/helpers/utils/calculations.ts:635-714 | so are the borrower's three balances |
| Effects.PaidIsRepaid | test-suites/helpers/utils/calculations.ts:544-550 | the largest amount of either sign means the debt owed, any other amount itself |
| Effects.VariableRepayScalesOut | test-suites/helpers/utils/calculations.ts:595-604 | a variable repayment adds cash, leaves the stable debt and its average, and takes off the nearest scaled debt |
| Effects.StableRepayAveragesOut | test-suites/helpers/utils/calculations.ts:560-594 | a stable repayment adds cash and takes the amount and its weight at the user's rate off the stable debt, or erases it when that does not fit |
| Effects.SwapToStableAveragesIn | test-suites/helpers/utils/calculations.ts:864-883 | a swap to the stable rate adds the debt to the accrued stable debt, with its weight at the offered rate on the total of the record before |
| Effects.SwapToVariableAveragesOut | test-suites/helpers/utils/calculations.ts:845-863 | a swap out of stable debt scales the debt in and, when it fits, takes it and its weight at the user's rate off the stable debt |
| Solvency.EveryActionSettlesItsCore | test-suites/helpers/utils/calculations.ts:150-633 | every action is: accrue, move debts and liquidity, settle |
| Solvency.StepLeavesCurrent | test-suites/helpers/utils/calculations.ts:1231-1328 | after any action the rates are those of the new debts and liquidity, and the stable debt is its principal accrued to that moment |
| Solvency.RunStaysCurrent | test-suites/helpers/scenario-engine.ts:37-42 | so in every state of a run, whose parameters never change |
| Solvency.CompoundedGrowth | test-suites/helpers/utils/calculations.ts:1204-1229 | compounded interest grows by simple interest on what it has grown to, up to an explicit lag of the truncation |
| Solvency.DebtsEarnTheirInterest | test-suites/helpers/utils/calculations.ts:1439-1474 | the debts grow by at least the interest at their current rates, up to an explicit slack |
| Solvency.IncomePromised | test-suites/helpers/utils/calculations.ts:1424-1437 | the index pays on the claims at most the liquidity rate on all assets and on what the claims exceed them by, up to rounding |
| Solvency.FundedIncome | test-suites/helpers/utils/calculations.ts:1317-1369 | with current rates, or none paid yet, that income comes from the interest of the debts |
| Solvency.TreasuryCredit | test-suites/helpers/utils/calculations.ts:1476-1513 | the treasury's claims grow by its percentage of the debt growth, from both sides, up to rounding |
| Solvency.AccrualStaysCovered | test-suites/helpers/utils/calculations.ts:1515-1550 | over any accrual, from any deficit, what suppliers and treasury can claim grows by no more than what borrowers owe, up to an explicit slack |
| Solvency.RunStaysCovered | test-suites/helpers/scenario-engine.ts:37-42 | in every state of every run of all seven actions, claims exceed assets by at most the excess at the start and the explicit slacks of the steps since, summed over a ledger of scaled supply |
| Solvency.RunStaysCoveredMeanwhile | test-suites/helpers/scenario-engine.ts:37-42 | and at any later time before the next action by at most the slack of that accrual more |
| Solvency.FreshReserveCovered | test-suites/helpers/utils/interfaces/index.ts:20-46 | a fresh reserve meets every condition on the start of such a run, with nothing uncovered |
| Solvency.SupplySideKeepsCoverage | test-suites/helpers/utils/calculations.ts:150-361 | depositing, withdrawing and minting change claims and assets alike and leave debts, indexes and treasury as accrued |
| Solvency.DepositCanUncover | test-suites/helpers/utils/calculations.ts:150-185 | at an index of 1.5 depositing one unit raises the claims by two, so some slack is needed |
| Solvency.BackingKeepsCoverage | test-suites/helpers/utils/calculations.ts:233-315 | backing changes claims and assets alike, up to the roundings of the fee |
| Solvency.DebtSideKeepsCoverage | test-suites/helpers/utils/calculations.ts:363-908 | borrowing, repaying and swapping leave claims and assets as far apart as they were, up to rounding; a stable repayment exactly, but for what it erases |
| TokenEvents.EventsCarryTheMovement | test-suites/helpers/utils/tokenization-events.ts:106-180 | whichever branch is taken, event values are not negative and sum to the amount moved plus the interest of the old balance |
| TokenEvents.EventsStateTheIncrease | test-suites/helpers/utils/tokenization-events.ts:106-248 | each mint or burn states the interest of the old balance and the index it is at; which events with which values a movement leaves |
| TokenEvents.EventsTrackBalance | test-suites/helpers/utils/tokenization-events.ts:80-183 | one action's events move the replayed balance to the new one within half an index and a unit |
| TokenEvents.ReplayReconstructsBalance | test-suites/helpers/utils/tokenization-events.ts:80-433 | replaying the log of any k actions gives the balance within k * (1 + index / (2 RAY)) |
| TokenEvents.WholeLogGivesBalance | test-suites/helpers/utils/tokenization-events.ts:80-433 | from a holder's very first event on, the log alone gives the balance within that bound |
| TokenEvents.ScaledRefinesPlainLedger | test-suites/helpers/utils/calculations.ts:1099-1120 | after n actions at one index the rebased balance is the exact running sum within n half indexes and half a unit |
| TokenEvents.Account.Supply | test-suites/helpers/utils/tokenization-events.ts:88-126 | the event worked out after the transaction, and the new balance |
| TokenEvents.Account.Withdraw | test-suites/helpers/utils/tokenization-events.ts:128-183 | mint or burn, as interest exceeds the amount or not, and the new balance |
| TokenEvents.Account.Transfer | test-suites/helpers/utils/tokenization-events.ts:185-248 | both logs and balances, also for a transfer to oneself; scaled supply is conserved |
| Records.CalcExpectedUsageRatios | test-suites/helpers/utils/calculations.ts:1351-1369 | both ratios, with the code's own assertion proved never to fail while the debts together are not negative |
| Records.CalcExpectedInterestRates | test-suites/helpers/utils/calculations.ts:1231-1328 | rates accumulated term by term are the rates of the curve |
| Records.ReserveData.UpdateState | test-suites/helpers/utils/calculations.ts:1515-1550 | the fields written in place are those of an accrued reserve |
| Records.ReserveData.UpdateLiquidityAndUsageRatios | test-suites/helpers/utils/calculations.ts:1552-1573 | new liquidity and ratios in place, all else unchanged |
| Records.ReserveData.UpdateTotalLiquidityAndUsageRatio | test-suites/helpers/utils/calculations.ts:1575-1587 | total liquidity and ratios in place, all else unchanged |
| Records.ReserveData.RepayDebt | test-suites/helpers/utils/calculations.ts:560-604 | the debt fields after a repayment, both erasures included |
| Records.ReserveData.BorrowStable | test-suites/helpers/utils/calculations.ts:389-442 | a stable borrow assigned field by field |
| Records.ReserveData.BorrowVariable | test-suites/helpers/utils/calculations.ts:443-508 | a variable borrow assigned field by field |
| Records.ReserveDataAfterDeposit | test-suites/helpers/utils/calculations.ts:150-185 | the expected record of a deposit agrees with its specification on every compared field |
| Records.ReserveDataAfterWithdraw | test-suites/helpers/utils/calculations.ts:317-361 | the same for a withdrawal |
| Records.ReserveDataAfterMintUnbacked | test-suites/helpers/utils/calculations.ts:187-231 | the same for minting |
| Records.ReserveDataAfterBackUnbacked | test-suites/helpers/utils/calculations.ts:233-315 | the same for backing |
| Records.ReserveDataAfterBorrow | test-suites/helpers/utils/calculations.ts:363-511 | the same for a borrow, seen at any later time |
| Records.ReserveDataAfterRepay | test-suites/helpers/utils/calculations.ts:513-633 | the same for a repayment |
| Records.ReserveDataAfterSwapRateMode | test-suites/helpers/utils/calculations.ts:810-908 | the same for a swap |
| Records.UserDataAfterDeposit | test-suites/helpers/utils/calculations.ts:14-82 | the user record of a deposit, overwritten fields included |
| Records.UserDataAfterWithdraw | test-suites/helpers/utils/calculations.ts:84-148 | the user record of a withdrawal |
| Records.UserDataAfterBorrow | test-suites/helpers/utils/calculations.ts:635-714 | the user record of a borrow: a stable debt grown by the amount at a rate between the old and the offered one, a variable debt that is the scaled one at the index left |
| Records.UserDataAfterRepay | test-suites/helpers/utils/calculations.ts:716-795 | the user record of a repayment, which leaves nothing of a debt repaid in full |
| Records.UserDataAfterSwapRateMode | test-suites/helpers/utils/calculations.ts:910-973 | the user record of a swap |

## Left out

- Stable rate rebalancing (C:975-1097, 1137-1150): its average scales the amount but not the total, so no averaging property holds of it.
- Setting the collateral flag (C:797-808), symbols, addresses, decimals, the copied user borrow index: no arithmetic.
- Transactions, receipts, event decoding, printing and the comparison against chain data; the contracts are not part of this model.
- Events of stable borrowing and repaying (`tokenization-events.ts:435-540`) and `transferFrom`, which repeats `transfer`.
- `wadMul`, `wadDiv` and `percentDiv`: used by none of the modelled functions.
- Widths of on-chain integers: the modelled code computes in unbounded integers.
- Repayments beyond the debt: the code says that the cap is missing (C:526); a variable repayment must fit in the reserve's scaled debt.
- Division by zero, the code's failing assertion on usage ratios of negative debts, and withdrawals or borrows beyond the liquidity: preconditions, since the code throws or the pool reverts.
- Records.ReserveData.BorrowVariable: the ratios the code assigns before the rates (C:470-476) are not assigned, since it overwrites them at C:501-507.
- Bridge.BackingConservesValue: the scaled supply is a parameter, as in the code; that it is the sum of the holders' balances is not part of the reserve's record.
- Runs.RunInvariant: the user snapshots that actions carry are only required to fit the reserve, not to come from one ledger of users, because a variable borrow books user and reserve differently (Users.BorrowMovesBothAlikeIff).
- Holders beside a run's reserve: `Solvency.Ledger` books the scaled supply as one number, as the record's own fields do; `WadRayMath.HoldersSumToTotal` relates such a total to holders' balances.
