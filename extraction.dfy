/** The Monte-Carlo comparison of atomic and non-atomic arbitrage: each
    iteration draws both legs' failure outcomes, both rollups' gas prices and
    the Y price, values the bundles and the gas under both regimes, and appends
    one row to the results. The random draws are inputs here: the i-th entry of
    each draw sequence is what the i-th iteration drew. */
module Extraction {
  import opened Errors
  import opened Rollup
  import opened Outcomes
  import Swap
  import Bundle
  import Cost
  import Algebra

  /** One row of the results, one field per column. */
  datatype IterRecord = IterRecord(
    iter: int,
    failOutcomeA: int,
    failOutcomeB: int,
    gasPriceA: real,
    gasPriceB: real,
    pureBundleProfitA: real,
    pureBundleProfitB: real,
    atomicBundleProfit: real,
    nonAtomicBundleProfit: real,
    atomicArbCost: real,
    nonAtomicArbCost: real,
    atomicProfit: real,
    nonAtomicProfit: real,
    sharedSequencingGain: real)

  /** The row of iteration i for the given draws, or the check's error. */
  function SimulateIteration(
    i: int, a: RollupSpec, b: RollupSpec, failA: int, failB: int,
    gasPriceA: real, gasPriceB: real, yPrice: real, feeStable: real, root: real): (r: Result<IterRecord>)
    requires Swap.ValidPair(a, b, root)
    ensures r.Failure? <==> Swap.CheckRollupSpecs(a, b).Fail?
    ensures r.Failure? ==> r.error == Swap.CheckRollupSpecs(a, b).error
    ensures r.Success? ==> r.value.iter == i && r.value.failOutcomeA == failA && r.value.failOutcomeB == failB
    ensures r.Success? ==> r.value.gasPriceA == gasPriceA && r.value.gasPriceB == gasPriceB
    ensures r.Success? ==>
              (r.value.pureBundleProfitA, r.value.pureBundleProfitB)
              == Bundle.ComputePureBundleProfits(a, b, failA, failB, yPrice, feeStable, root).value
    ensures r.Success? ==>
              r.value.atomicBundleProfit
              == Bundle.ComputeAtomicBundleProfit(r.value.pureBundleProfitA, r.value.pureBundleProfitB, failA, failB)
    ensures r.Success? ==>
              r.value.nonAtomicBundleProfit
              == Bundle.ComputeNonAtomicBundleProfit(r.value.pureBundleProfitA, r.value.pureBundleProfitB)
    ensures r.Success? ==> r.value.atomicArbCost == Cost.ComputeAtomicArbCost(failA, failB, a, b, gasPriceA, gasPriceB)
    ensures r.Success? ==>
              r.value.nonAtomicArbCost == Cost.ComputeNonAtomicArbCost(failA, failB, a, b, gasPriceA, gasPriceB)
    ensures r.Success? ==> r.value.atomicProfit == r.value.atomicBundleProfit - r.value.atomicArbCost
    ensures r.Success? ==> r.value.nonAtomicProfit == r.value.nonAtomicBundleProfit - r.value.nonAtomicArbCost
    ensures r.Success? ==> r.value.sharedSequencingGain == r.value.atomicProfit - r.value.nonAtomicProfit
  {
    match Bundle.ComputePureBundleProfits(a, b, failA, failB, yPrice, feeStable, root)
    case Failure(e) => Failure(e)
    case Success(profits) =>
      var (pureA, pureB) := profits;
      var atomicBundleProfit := Bundle.ComputeAtomicBundleProfit(pureA, pureB, failA, failB);
      var nonAtomicBundleProfit := Bundle.ComputeNonAtomicBundleProfit(pureA, pureB);
      var atomicArbCost := Cost.ComputeAtomicArbCost(failA, failB, a, b, gasPriceA, gasPriceB);
      var nonAtomicArbCost := Cost.ComputeNonAtomicArbCost(failA, failB, a, b, gasPriceA, gasPriceB);
      var atomicProfit := atomicBundleProfit - atomicArbCost;
      var nonAtomicProfit := nonAtomicBundleProfit - nonAtomicArbCost;
      Success(IterRecord(
        i, failA, failB, gasPriceA, gasPriceB, pureA, pureB,
        atomicBundleProfit, nonAtomicBundleProfit, atomicArbCost, nonAtomicArbCost,
        atomicProfit, nonAtomicProfit, atomicProfit - nonAtomicProfit))
  }

  /** run_arb_profit_simulation: max(nIter, 0) rows, the k-th built from the
      k-th draws. The check raises in the first iteration, so the run fails
      exactly when it has at least one iteration and the pools fail the check. */
  method RunArbProfitSimulation(
    nIter: int, a: RollupSpec, b: RollupSpec,
    failOutcomesA: seq<int>, failOutcomesB: seq<int>,
    gasPricesA: seq<real>, gasPricesB: seq<real>, yPrices: seq<real>,
    feeStable: real, root: real)
    returns (r: Result<seq<IterRecord>>)
    requires Swap.ValidPair(a, b, root)
    requires |failOutcomesA| >= nIter && |failOutcomesB| >= nIter
    requires |gasPricesA| >= nIter && |gasPricesB| >= nIter && |yPrices| >= nIter
    ensures r.Failure? <==> nIter > 0 && Swap.CheckRollupSpecs(a, b).Fail?
    ensures r.Failure? ==> r.error == Swap.CheckRollupSpecs(a, b).error
    ensures r.Success? ==> |r.value| == (if nIter > 0 then nIter else 0)
    ensures r.Success? ==>
              forall k :: 0 <= k < |r.value| ==>
                SimulateIteration(k, a, b, failOutcomesA[k], failOutcomesB[k], gasPricesA[k], gasPricesB[k],
                                  yPrices[k], feeStable, root) == Success(r.value[k])
  {
    var rows: seq<IterRecord> := [];
    var i := 0;
    while i < nIter
      invariant 0 <= i <= (if nIter > 0 then nIter else 0)
      invariant |rows| == i
      invariant i > 0 ==> Swap.CheckRollupSpecs(a, b) == Pass
      invariant forall k :: 0 <= k < i ==>
                  SimulateIteration(k, a, b, failOutcomesA[k], failOutcomesB[k], gasPricesA[k], gasPricesB[k],
                                    yPrices[k], feeStable, root) == Success(rows[k])
    {
      var failA, failB := failOutcomesA[i], failOutcomesB[i];
      var gasPriceA, gasPriceB := gasPricesA[i], gasPricesB[i];
      var profits := Bundle.ComputePureBundleProfits(a, b, failA, failB, yPrices[i], feeStable, root);
      if profits.Failure? {
        return Failure(profits.error);
      }
      var (pureA, pureB) := profits.value;
      var atomicBundleProfit := Bundle.ComputeAtomicBundleProfit(pureA, pureB, failA, failB);
      var nonAtomicBundleProfit := Bundle.ComputeNonAtomicBundleProfit(pureA, pureB);
      var atomicArbCost := Cost.ComputeAtomicArbCost(failA, failB, a, b, gasPriceA, gasPriceB);
      var nonAtomicArbCost := Cost.ComputeNonAtomicArbCost(failA, failB, a, b, gasPriceA, gasPriceB);
      var atomicProfit := atomicBundleProfit - atomicArbCost;
      var nonAtomicProfit := nonAtomicBundleProfit - nonAtomicArbCost;
      var row := IterRecord(
        i, failA, failB, gasPriceA, gasPriceB, pureA, pureB,
        atomicBundleProfit, nonAtomicBundleProfit, atomicArbCost, nonAtomicArbCost,
        atomicProfit, nonAtomicProfit, atomicProfit - nonAtomicProfit);
      rows := rows + [row];
      i := i + 1;
    }
    return Success(rows);
  }

  /** When both legs share their outcome, atomicity changes neither the bundle
      value nor the gas bill, so the row records no shared-sequencing gain. */
  lemma GainVanishesWhenOutcomesAgree(
    i: int, a: RollupSpec, b: RollupSpec, failA: int, failB: int,
    gasPriceA: real, gasPriceB: real, yPrice: real, feeStable: real, root: real)
    requires Swap.ValidPair(a, b, root) && Swap.CheckRollupSpecs(a, b) == Pass
    requires IsBit(failA) && IsBit(failB) && failA == failB
    ensures SimulateIteration(i, a, b, failA, failB, gasPriceA, gasPriceB, yPrice, feeStable, root)
              .value.sharedSequencingGain == 0.0
  {
    Bundle.BundleRegimesAgreeWhenOutcomesAgree(a, b, failA, failB, yPrice, feeStable, root);
    Cost.CostRegimesAgreeWhenOutcomesAgree(failA, failB, a, b, gasPriceA, gasPriceB);
  }

  /** When exactly one leg fails, atomic execution drops the other leg: it
      gains the gas that leg's swap would have cost beyond a failure, and loses
      that leg's pure profit. */
  lemma MixedOutcomeGain(
    i: int, a: RollupSpec, b: RollupSpec, failA: int, failB: int,
    gasPriceA: real, gasPriceB: real, yPrice: real, feeStable: real, root: real)
    requires Swap.ValidPair(a, b, root) && Swap.CheckRollupSpecs(a, b) == Pass
    requires IsBit(failA) && IsBit(failB) && failA != failB
    ensures var row := SimulateIteration(i, a, b, failA, failB, gasPriceA, gasPriceB, yPrice, feeStable, root).value;
            row.sharedSequencingGain
            == if failA == 0 then gasPriceA * (a.gasUnitsSwap - a.gasUnitsFail) - row.pureBundleProfitA
               else gasPriceB * (b.gasUnitsSwap - b.gasUnitsFail) - row.pureBundleProfitB
  {
    Cost.MixedOutcomeCostGap(failA, failB, a, b, gasPriceA, gasPriceB);
  }

  /** For a positive Y price and a stable fee below 1, an executed bundle
      always loses under the formulas' valuation (see
      Bundle.ExecutedBundlesLoseValue), so with those two conditions, non-negative gas prices and swaps that burn at least as much gas
      as failures, every iteration with exactly one failed leg reports a
      positive shared-sequencing gain, and no iteration reports a negative one. */
  lemma GainNonNegative(
    i: int, a: RollupSpec, b: RollupSpec, failA: int, failB: int,
    gasPriceA: real, gasPriceB: real, yPrice: real, feeStable: real, root: real)
    requires Swap.ValidPair(a, b, root) && Swap.CheckRollupSpecs(a, b) == Pass
    requires IsBit(failA) && IsBit(failB)
    requires yPrice > 0.0 && feeStable < 1.0 && gasPriceA >= 0.0 && gasPriceB >= 0.0
    requires a.gasUnitsSwap >= a.gasUnitsFail && b.gasUnitsSwap >= b.gasUnitsFail
    ensures var row := SimulateIteration(i, a, b, failA, failB, gasPriceA, gasPriceB, yPrice, feeStable, root).value;
            row.sharedSequencingGain >= 0.0 && (failA != failB ==> row.sharedSequencingGain > 0.0)
  {
    if failA == failB {
      GainVanishesWhenOutcomesAgree(i, a, b, failA, failB, gasPriceA, gasPriceB, yPrice, feeStable, root);
    } else {
      MixedOutcomeGain(i, a, b, failA, failB, gasPriceA, gasPriceB, yPrice, feeStable, root);
      Bundle.ExecutedBundlesLoseValue(a, b, failA, failB, yPrice, feeStable, root);
      Algebra.NonNegativeProduct(gasPriceA, a.gasUnitsSwap - a.gasUnitsFail);
      Algebra.NonNegativeProduct(gasPriceB, b.gasUnitsSwap - b.gasUnitsFail);
    }
  }
}
