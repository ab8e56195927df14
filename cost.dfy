/** The gas the arbitrageur pays on the two rollups for one attempt: each
    rollup charges the gas units of a swap at its gas price when the leg goes
    through and the gas units of a failed transaction otherwise. */
module Cost {
  import opened Rollup
  import opened Outcomes
  import opened Algebra

  /** The independent reading: each rollup bills its swap gas when its leg
      executes and its failure gas when it does not. */
  function GasBill(
    a: RollupSpec, b: RollupSpec, gasPriceA: real, gasPriceB: real,
    executesA: bool, executesB: bool): (bill: real)
  {
    (if executesA then gasPriceA * a.GetGasUnitsSwap() else gasPriceA * a.GetGasUnitsFail())
    + (if executesB then gasPriceB * b.GetGasUnitsSwap() else gasPriceB * b.GetGasUnitsFail())
  }

  /** compute_atomic_arb_cost: both legs execute, and are billed as swaps,
      exactly when neither fails; otherwise both are billed as failures. */
  function ComputeAtomicArbCost(
    failA: int, failB: int, a: RollupSpec, b: RollupSpec, gasPriceA: real, gasPriceB: real): (r: real)
    ensures var both := failA == 0 && failB == 0;
            r == GasBill(a, b, gasPriceA, gasPriceB, both, both)
  {
    var gasCostASuccess := gasPriceA * a.GetGasUnitsSwap();
    var gasCostBSuccess := gasPriceB * b.GetGasUnitsSwap();
    var gasCostAFail := gasPriceA * a.GetGasUnitsFail();
    var gasCostBFail := gasPriceB * b.GetGasUnitsFail();
    if failA == 0 && failB == 0 then gasCostASuccess + gasCostBSuccess
    else gasCostAFail + gasCostBFail
  }

  /** compute_non_atomic_arb_cost: the outcome weights each rollup's swap and
      failure gas; for outcomes 0 and 1 each rollup bills its own leg. */
  function ComputeNonAtomicArbCost(
    failA: int, failB: int, a: RollupSpec, b: RollupSpec, gasPriceA: real, gasPriceB: real): (r: real)
    ensures IsBit(failA) && IsBit(failB) ==> r == GasBill(a, b, gasPriceA, gasPriceB, failA == 0, failB == 0)
  {
    var gasCostASuccess := gasPriceA * a.GetGasUnitsSwap();
    var gasCostBSuccess := gasPriceB * b.GetGasUnitsSwap();
    var gasCostAFail := gasPriceA * a.GetGasUnitsFail();
    var gasCostBFail := gasPriceB * b.GetGasUnitsFail();
    gasCostASuccess * Survives(failA) + gasCostAFail * failA as real
    + gasCostBSuccess * Survives(failB) + gasCostBFail * failB as real
  }

  /** With non-negative gas prices and gas units, neither regime costs less than nothing. */
  lemma CostsNonNegative(
    failA: int, failB: int, a: RollupSpec, b: RollupSpec, gasPriceA: real, gasPriceB: real)
    requires IsBit(failA) && IsBit(failB) && gasPriceA >= 0.0 && gasPriceB >= 0.0
    requires a.gasUnitsSwap >= 0.0 && a.gasUnitsFail >= 0.0 && b.gasUnitsSwap >= 0.0 && b.gasUnitsFail >= 0.0
    ensures ComputeAtomicArbCost(failA, failB, a, b, gasPriceA, gasPriceB) >= 0.0
    ensures ComputeNonAtomicArbCost(failA, failB, a, b, gasPriceA, gasPriceB) >= 0.0
  {
    GasBillNonNegative(a, b, gasPriceA, gasPriceB, failA == 0 && failB == 0, failA == 0 && failB == 0);
    GasBillNonNegative(a, b, gasPriceA, gasPriceB, failA == 0, failB == 0);
  }

  lemma GasBillNonNegative(
    a: RollupSpec, b: RollupSpec, gasPriceA: real, gasPriceB: real, executesA: bool, executesB: bool)
    requires gasPriceA >= 0.0 && gasPriceB >= 0.0
    requires a.gasUnitsSwap >= 0.0 && a.gasUnitsFail >= 0.0 && b.gasUnitsSwap >= 0.0 && b.gasUnitsFail >= 0.0
    ensures GasBill(a, b, gasPriceA, gasPriceB, executesA, executesB) >= 0.0
  {
    NonNegativeProduct(gasPriceA, a.gasUnitsSwap);
    NonNegativeProduct(gasPriceA, a.gasUnitsFail);
    NonNegativeProduct(gasPriceB, b.gasUnitsSwap);
    NonNegativeProduct(gasPriceB, b.gasUnitsFail);
  }

  /** When the two legs share their outcome, atomicity does not change the gas bill. */
  lemma CostRegimesAgreeWhenOutcomesAgree(
    failA: int, failB: int, a: RollupSpec, b: RollupSpec, gasPriceA: real, gasPriceB: real)
    requires IsBit(failA) && IsBit(failB) && failA == failB
    ensures ComputeAtomicArbCost(failA, failB, a, b, gasPriceA, gasPriceB)
         == ComputeNonAtomicArbCost(failA, failB, a, b, gasPriceA, gasPriceB)
  {
  }

  /** When exactly one leg fails, atomic execution saves the difference between
      a swap and a failure on the rollup whose leg would have gone through. */
  lemma MixedOutcomeCostGap(
    failA: int, failB: int, a: RollupSpec, b: RollupSpec, gasPriceA: real, gasPriceB: real)
    requires IsBit(failA) && IsBit(failB) && failA != failB
    ensures ComputeNonAtomicArbCost(failA, failB, a, b, gasPriceA, gasPriceB)
          - ComputeAtomicArbCost(failA, failB, a, b, gasPriceA, gasPriceB)
         == (if failA == 0 then gasPriceA * (a.gasUnitsSwap - a.gasUnitsFail)
             else gasPriceB * (b.gasUnitsSwap - b.gasUnitsFail))
  {
  }
}
