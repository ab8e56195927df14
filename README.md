# Shared-sequencer arbitrage, modelled in Dafny

The simulator compares two ways of running a cross-rollup arbitrage. Each rollup
hosts a constant-product pool of tokens X and Y. The arbitrage buys X with Y on
rollup B, where X is cheap, and sells that X for Y on rollup A, where it is dear.
The two legs run either **atomically**, as a shared sequencer allows (both legs or
neither), or **non-atomically**, where each leg succeeds or fails on its own.
Every iteration of the simulation draws:

- each leg's failure outcome;
- each rollup's gas price;
- the price of Y.

It then values the two bundles and the gas under both regimes. The difference
between the two net profits is the *shared-sequencing gain*.

This project models the arithmetic core of the simulator, with exact `real`
numbers:

- `rollup.dfy` holds the pool record (`RollupSpec`) with its getters and the
  pool price.
- `swap.dfy` holds the trade-size solver and its checks:
  - the precondition on the pool pair: A priced strictly above B, and equal fees;
  - the closed-form trade sizes;
  - the post-trade prices;
  - the arbitrage-opportunity threshold.
- `bundle.dfy` holds the bundle valuation: each bundle's pure profit, and the
  atomic and non-atomic bundle profits.
- `liquidity.dfy` holds the inventory changes under both regimes.
- `cost.dfy` holds the gas cost under both regimes.
- `extraction.dfy` holds the driver loop:
  - an imperative method that appends one record per iteration;
  - the function it is proved against, which gives the record of one iteration.
- `outcome.dfy` holds the failure outcome as a 0/1 integer.
- `algebra.dfy` holds small ordered-field lemmas the proofs use.

The proved properties:

- The four formulas of `swap.py` (trade sizes, post-trade prices, threshold,
  opportunity test) and `compute_pure_bundle_profits` raise, as a `Failure`
  result, exactly when the check fails, with the check's error. Through
  `compute_pure_bundle_profits` so does one iteration of the driver, and the
  driver fails exactly when it has at least one iteration and the check fails.
- The solver buys on B the X it sells on A.
- When the check passes, the solver's trade stays strictly inside both pools.
- Over exact reals the solver leaves both pools at the same price.
- The opportunity test is fee-aware. It reports an opportunity exactly when
  `(1-fee)^4 * price_A > price_B`, which is stricter than the check.
- The liquidity and gas rules are each shown equal to an independent reading:
  the flows, or the gas, of exactly the legs that execute.
- Both regimes agree whenever the two legs share their outcome.
- With exactly one failed leg, the shared-sequencing gain is the gas saved on
  the rollup whose leg would have succeeded, minus that leg's pure profit.
- For a positive Y price and a stable-token fee below 1, every executed bundle
  has a negative pure profit under the formulas' own valuation. Each leg is
  valued at its own pool's pre-trade price, and the trade moves that price
  against it. A zero Y price makes every pure profit 0, and a negative one
  makes an executed bundle's profit positive. So for a positive Y price, a
  stable-token fee below 1, non-negative gas prices, and swaps that burn at
  least the gas of a failure, every iteration has a non-negative shared-sequencing gain, and a
  positive one whenever exactly one leg fails.

`math.sqrt(x_A * y_A * x_B * y_B)` is the only square root. It is an input
`root` with the precondition that it is the non-negative square root of that
product. The random draws are inputs too: one sequence per kind of draw, read
at the iteration's index.

## Model

| member | source | states |
|---|---|---|
| `Rollup.NewRollupSpec` | src/rollup.py:8-24 | Each getter (`get_fail_rate`, `get_gas_units_swap`, `get_gas_units_fail`, `get_arb_pool_fee`) returns the argument it was built from. `get_arb_pool_reserves` returns `(x, y)` in that order. |
| `Rollup.RollupSpec.GetArbPoolPriceInYUnits` | src/rollup.py:47-48 | Needs a non-zero X reserve. The price times the X reserve is the Y reserve, so it is `y / x`. |
| `Rollup.PriceAboveIffCrossProduct` | src/rollup.py:47-48 | For positive X reserves, pool A's price exceeds pool B's exactly when `y_A * x_B > y_B * x_A`. |
| `Rollup.ExampleRollupA` | src/extraction.py:93-101 | The example pool A, (1000, 1050) with a 0.5% fee, is well formed and priced at 1.05. |
| `Rollup.ExampleRollupB` | src/extraction.py:105-113 | The example pool B, (1000, 1000) with a 0.5% fee, is well formed and priced at 1.0. |
| `Swap.CheckRollupSpecs` | src/swap.py:6-19 | Fails with `PriceNotAbove` exactly when `price_A <= price_B`. Fails with `FeeMismatch` exactly when A is dearer but the fees differ. Passes otherwise. The copy at src/model_v1/bundle.py:62-75 is the same check, and this member models both. |
| `Swap.CheckPassesIffCrossProduct` | src/swap.py:10-19 | For positive X reserves, the check passes exactly when `y_A * x_B > y_B * x_A` and the fees are equal. |
| `Swap.ExamplePoolsPassCheck` | src/extraction.py:93-113 | The example pools are priced 1.05 and 1.0, and they pass the check. |
| `Swap.AmountOut` | src/swap.py:35-37 | The constant-product output net of the fee: `out * (reserve_in + g*in) == reserve_out * g * in`. |
| `Swap.PaidOnB` | src/swap.py:32-34 | `delta_y_B` solves `((1-fee)*x_A + (1-fee)^2*x_B) * delta_y_B == sqrt(...) - x_A*y_B`. |
| `Swap.SolveTrade` | src/swap.py:32-37 | The formula solves the trade equations. `delta_x_B` and `delta_y_A` are constant-product outputs. `delta_x_A == delta_x_B`. Both post-trade reserves `y_B + g*delta_y_B` and `x_A + g*delta_x_A` are positive, and their product is the square root. |
| `Swap.TradeSizeFormula` | src/swap.py:27-37 | The closed form on a well-formed pool pair satisfies the trade equations, with `delta_x_A == delta_x_B`. |
| `Swap.SolverDenominatorPositive` | src/swap.py:32-34 | The divisor `(1-fee)*x_A + (1-fee)^2*x_B` is positive. |
| `Swap.PoolBAfterTradePositive` | src/swap.py:32-35 | Pool B's Y reserve after the trade is positive whatever the price order, so the division defining `delta_x_B` is safe. |
| `Swap.PoolAAfterTradePositive` | src/swap.py:35-37 | Pool A's X reserve after the trade, times pool B's Y reserve after it, is the square root. So it is positive, and the division defining `delta_y_A` is safe. |
| `Swap.RootPositive` | src/swap.py:32-34 | For positive reserves the square root of the reserve product is positive. |
| `Swap.ComputeArbTradeSizes` | src/swap.py:22-38 | Raises exactly as the check does, with its error. Otherwise the trade is the closed form, and it solves the trade equations, which have no other solution (`Swap.TradeEquationsDetermineTrade`). It has `delta_x_A == delta_x_B`, `delta_y_B > 0`, `0 < delta_x_B < x_B` and `0 < delta_y_A < y_A`. |
| `Swap.TradeEquationsDetermineTrade` | src/swap.py:32-37 | Two trades that solve the trade equations for the same pools are equal, so the equations fix `delta_y_B`, `delta_x_B`, `delta_x_A` and `delta_y_A`. |
| `Swap.TradeSizesInsidePools` | src/swap.py:32-37 | When the check passes, the trade is positive and stays strictly inside both pools. |
| `Swap.InsidePools` | src/swap.py:32-37 | The bounds above, derived from the trade equations and `sqrt(...) > x_A*y_B`. |
| `Swap.OutputBelowReserve` | src/swap.py:35-37 | A constant-product swap with a positive input pays out a positive amount below the whole reserve. |
| `Swap.RemainingReservePositive` | src/swap.py:56-57 | After a constant-product swap, `(reserve_out - out) * (reserve_in + in) == reserve_out * reserve_in`, and the remaining reserve is positive. |
| `Swap.RootAboveCrossProduct` | src/swap.py:32 | When `y_A*x_B > y_B*x_A`, `sqrt(x_A*y_A*x_B*y_B) > x_A*y_B`, so the numerator of `delta_y_B` is positive. |
| `Swap.ComputePricesAfterArb` | src/swap.py:41-58 | Raises exactly as the check does. Otherwise `price_end_B * (x_B - delta_x_B) == y_B + (1-fee)*delta_y_B` and `price_end_A * (x_A + (1-fee)*delta_x_A) == y_A - delta_y_A`. |
| `Swap.PostTradeDenominatorsPositive` | src/swap.py:56-57 | For the solver's trade, `x_B - delta_x_B > 0` and `x_A + (1-fee)*delta_x_A > 0`. |
| `Swap.PricesEqualiseAfterArb` | src/swap.py:50-57 | With the trade from `compute_arb_trade_sizes`, both post-trade prices are defined and equal. |
| `Swap.PricesEqualiseAfterTrade` | src/swap.py:50-57 | For any trade that solves the solver's equations and leaves pool B some X, both post-trade prices are equal. |
| `Swap.EqualPrices` | src/swap.py:56-57 | Both post-trade prices equal `u^2 / (x_B*y_B)`, where `u` is pool B's Y reserve after the trade. |
| `Swap.ComputeArbOpportunityThreshold` | src/swap.py:61-74 | Raises exactly as the check does. Otherwise the threshold is positive and `threshold * sqrt(x_A*y_A*x_B*y_B) == x_B * y_A * (1-fee)^2`. |
| `Swap.ThresholdNumeratorPositive` | src/swap.py:71 | `x_B * y_A * (1-fee)^2` is positive. |
| `Swap.PositiveQuotient` | src/swap.py:73 | The quotient by a positive divisor times the divisor is the dividend, and it is positive when the dividend is. |
| `Swap.ContainsArbOpportunity` | src/swap.py:77-82 | Raises exactly as the check does. Otherwise true exactly when the threshold is greater than 1. |
| `Swap.OpportunityIffDiscountedPriceAbove` | src/swap.py:61-82 | When the check passes, an opportunity is reported exactly when `(1-fee)^4 * price_A > price_B`. |
| `Swap.ThresholdAboveOneIff` | src/swap.py:73-79 | `threshold > 1` exactly when its numerator exceeds the square root. |
| `Swap.SquaresCompared` | src/swap.py:71-72 | The squared numerator exceeds the squared denominator exactly when `(1-fee)^4 * y_A * x_B > x_A * y_B`. |
| `Swap.DiscountedPriceCompared` | src/rollup.py:47-48 | The cross-product comparison with the factor `(1-fee)^4` is the price comparison with that factor. |
| `Swap.ExamplePoolsContainOpportunity` | src/swap.py:61-82 | The example pools contain an opportunity: the threshold is `1039526.25 / sqrt(1.05e12) > 1`. |
| `Bundle.ComputeAtomicBundleProfit` | src/model_v1/bundle.py:7-17 | With both outcomes 0, the non-atomic sum. With any other outcome, 0. |
| `Bundle.BundleRegimesAgreeWhenOutcomesAgree` | src/model_v1/bundle.py:7-24 | For the pure profits of one attempt, the atomic and non-atomic bundle profits are equal whenever both legs succeed or both fail. |
| `Bundle.ComputeArbTradeSizes` | src/model_v1/bundle.py:78-99 | The unchecked copy of the formula. It satisfies the trade equations with `delta_x_A == delta_x_B`, and wherever the check passes it equals the result of `swap.compute_arb_trade_sizes`. |
| `Bundle.ComputeNonAtomicBundleProfit` | src/model_v1/bundle.py:20-24 | The sum of both pure profits, whatever the outcomes. Its partner `Bundle.BundleRegimesAgreeWhenOutcomesAgree` shows it equals the atomic profit whenever both legs share their outcome. |
| `Bundle.ComputePureBundleProfits` | src/model_v1/bundle.py:27-59 | Raises exactly as the check does, before any trade is computed. A failed bundle (outcome 1) has pure profit 0. Otherwise the pair is `TradeProfits` of the solver's trade at the two pools' prices, with `x_price = price * y_price` on each rollup. |
| `Bundle.TradeProfits` | src/model_v1/bundle.py:44-58 | Bundle A earns `(1-fee_stable) * y_price * (delta_y_A - delta_x_A * price_A) * (1 - outcome_A)`. Bundle B earns `(1-fee_stable) * y_price * (delta_x_B * price_B - delta_y_B) * (1 - outcome_B)`. |
| `Bundle.BundleProfit` | src/model_v1/bundle.py:48-58 | One bundle's profit is `(1-fee_stable) * (received * price_received - paid * price_paid) * (1 - outcome)`. It is 0 when the bundle fails, and negative when it executes and receives less, at its prices, than it pays. |
| `Bundle.FactorPrice` | src/model_v1/bundle.py:48-49 | Valuing both amounts at one price factors that price out of their difference. |
| `Bundle.ExecutedBundlesLoseValue` | src/model_v1/bundle.py:37-58 | For a positive Y price and a stable fee below 1, every executed bundle's pure profit is negative. |
| `Bundle.BundleProfitsFollowYPrice` | src/model_v1/bundle.py:43-58 | For a stable fee below 1: a zero Y price makes both pure profits 0, and a negative Y price makes every executed bundle's pure profit positive. |
| `Bundle.TradeProfitsFollowYPrice` | src/model_v1/bundle.py:44-58 | The same for any trade that gives more than it gets at the two pool prices. |
| `Bundle.ScaledByNegative` | src/model_v1/bundle.py:48-58 | A positive factor times a zero Y price is 0; times a negative Y price and a negative price gap, it is positive. |
| `Bundle.TradeBelowPoolPrices` | src/model_v1/bundle.py:44-58 | For the solver's trade, `delta_x_B * price_B < delta_y_B` and `delta_y_A < delta_x_A * price_A`. |
| `Bundle.TradeBelowPrices` | src/model_v1/bundle.py:89-91 | The same two inequalities for any positive trade that solves the solver's equations. |
| `Bundle.SwapBelowSpotValue` | src/model_v1/bundle.py:89-91 | A constant-product swap with fee share `g <= 1` pays out less than the pool's pre-trade price would. |
| `Bundle.BelowAtPrice` | src/rollup.py:47-48 | A comparison of cross products, restated at the pool price. |
| `Bundle.AboveAtPrice` | src/rollup.py:47-48 | The mirror comparison, restated at the pool price. |
| `Outcomes.Survives` | src/liquidity.py:22-27 | The factor `1 - outcome` is 1 for a success and 0 for a failure. |
| `Liquidity.ComputeLiquidityDiffs` | src/liquidity.py:4-28 | Atomic: the net X and Y flows of both legs when neither fails, and `(0, 0)` otherwise. Non-atomic, for 0/1 outcomes: the net flows of exactly the legs whose own outcome is 0. |
| `Liquidity.LiquidityRegimesAgreeWhenOutcomesAgree` | src/liquidity.py:13-27 | Both regimes give the same diffs when both legs succeed or both fail. |
| `Liquidity.InventoryRiskOnlyWithoutAtomicity` | src/liquidity.py:13-24 | With `delta_x_A == delta_x_B`, the atomic X diff is always 0. The non-atomic X diff is `delta_x` when only A fails, `-delta_x` when only B fails, and 0 otherwise. |
| `Cost.ComputeAtomicArbCost` | src/model_v1/cost.py:4-20 | Both rollups bill swap gas when both outcomes are 0, and failure gas otherwise. |
| `Cost.ComputeNonAtomicArbCost` | src/model_v1/cost.py:23-41 | For 0/1 outcomes each rollup bills swap gas when its own outcome is 0, and failure gas when it is 1, independently of the other. |
| `Cost.CostsNonNegative` | src/model_v1/cost.py:4-41 | With non-negative gas prices and gas units, both costs are non-negative. |
| `Cost.GasBillNonNegative` | src/model_v1/cost.py:12-15 | A bill of non-negative prices times non-negative units is non-negative. |
| `Cost.CostRegimesAgreeWhenOutcomesAgree` | src/model_v1/cost.py:16-41 | Both costs are equal when both legs succeed or both fail. |
| `Cost.MixedOutcomeCostGap` | src/model_v1/cost.py:16-41 | With exactly one failure, non-atomic minus atomic cost is `gas_price * (units_swap - units_fail)` of the rollup whose leg succeeded. |
| `Extraction.SimulateIteration` | src/extraction.py:19-83 | Raises exactly as the check does. The row records the iteration index and exactly the drawn outcomes and gas prices. `atomic_profit = atomic_bundle_profit - atomic_arb_cost`, `non_atomic_profit = non_atomic_bundle_profit - non_atomic_arb_cost`, and `shared_sequencing_gain = atomic_profit - non_atomic_profit`. The pure profits are those of `compute_pure_bundle_profits`. The bundle profits are `compute_atomic_bundle_profit` and `compute_non_atomic_bundle_profit` of those pure profits and the outcomes. The costs are `compute_atomic_arb_cost` and `compute_non_atomic_arb_cost` of the outcomes, pools and gas prices. |
| `Extraction.RunArbProfitSimulation` | src/extraction.py:9-85 | Fails exactly when there is at least one iteration and the check fails, because it raises in the first iteration and there is no short-circuit. Otherwise it returns `max(n_iter, 0)` rows, and row `k` is the row of iteration `k` built from the `k`-th draws. |
| `Extraction.GainVanishesWhenOutcomesAgree` | src/extraction.py:63-81 | The shared-sequencing gain is 0 in any row where both legs succeed or both fail. |
| `Extraction.MixedOutcomeGain` | src/extraction.py:63-81 | With exactly one failure, the gain is the executing leg's gas saving `gas_price * (units_swap - units_fail)` minus that leg's pure profit. |
| `Extraction.GainNonNegative` | src/extraction.py:45-81 | For a positive Y price, a stable fee below 1, non-negative gas prices, and swaps that burn at least the gas of failures, the gain is non-negative, and positive when exactly one leg fails. |

## Left out

- `math.sqrt` is not computed. Its value is an input `root`, required to be the
  non-negative square root of `x_A*y_A*x_B*y_B`, because real square roots cannot
  be constructed here.
- Floating point: rounding, NaN, overflow and the error of `math.sqrt` are not
  modelled. All arithmetic is exact over `real`, which is why the post-trade
  prices come out exactly equal.
- The model is restricted to well-formed pools: positive reserves and a fee in
  `[0, 1)` (`RollupSpec.WellFormed`). The price also needs a non-zero X
  reserve, and `ComputePricesAfterArb` needs post-trade X reserves that are
  not zero. The source checks none of this. On some excluded inputs it raises:
  `ZeroDivisionError` for a zero X reserve, and `ValueError` from `math.sqrt`
  for a negative reserve product. On others it still returns numbers: a negative
  fee, or a fee above 1 that leaves the solver's divisor non-zero. The model
  says nothing about those inputs. Only the two checked errors, the price order
  and the fee mismatch, are modelled as error results.
- Randomness:
  - The Bernoulli failure draw (`generate_fail_outcome`) and the gas-price draw
    (`generate_gas_price`) of the rollup record are left out. The driver takes
    their values as sequences.
  - The stored `gas_price_model` field is left out with them.
  - The Y-price model of `asset.py` (its scipy and kernel-density draws) is
    left out. The drawn Y price and the model's trading fee are parameters.
- `get_asset_price_models` is left out. It reads attributes the constructor never
  sets, so it would raise in the source, and nothing calls it.
- The pandas DataFrame is a sequence of records. CSV output and the `__main__`
  script block are left out. Only its two pools serve as examples. The script
  also passes `gas_price_model_A` to rollup B.
- `Bundle.ComputePureBundleProfits`, `Liquidity.ComputeLiquidityDiffs` and
  `Cost.ComputeNonAtomicArbCost`: their properties about the regimes assume
  outcomes of 0 or 1. The source uses the outcome both as a test (`== 0`) and as
  a factor (`1 - outcome`), and the two readings agree only on 0 and 1, which is
  all a Bernoulli draw yields.
- `Swap.ComputeArbOpportunityThreshold` writes the source's
  `(1 - fee) * (1 - fee)` as `Square(1 - fee)`. The two are equal.
- The opportunity threshold is not the plain price comparison. Over exact reals,
  `threshold > 1` holds exactly when `(1-fee)^4 * price_A > price_B`, so with a
  positive fee a pair can pass the check without the threshold reporting an
  opportunity. The model follows the code.
