/** The change in the arbitrageur's X and Y inventory once the legs of the
    arbitrage have run, under atomic execution (both legs or neither, as with a
    shared sequencer) and under non-atomic execution (each leg on its own). */
module Liquidity {
  import opened Outcomes

  /** The independent reading: leg A sells delta_x_A of X for delta_y_A of Y,
      leg B buys delta_x_B of X for delta_y_B of Y, and the inventory changes by
      the flows of exactly the legs that execute. */
  function NetFlows(
    deltaXA: real, deltaYA: real, deltaXB: real, deltaYB: real,
    executesA: bool, executesB: bool): (diffs: (real, real))
  {
    ((if executesB then deltaXB else 0.0) - (if executesA then deltaXA else 0.0),
     (if executesA then deltaYA else 0.0) - (if executesB then deltaYB else 0.0))
  }

  /** compute_liquidity_diffs: (X difference, Y difference). Atomic execution
      runs both legs exactly when neither fails and otherwise neither; in the
      non-atomic regime each leg runs exactly when its own outcome is 0. */
  function ComputeLiquidityDiffs(
    deltaXA: real, deltaYA: real, deltaXB: real, deltaYB: real,
    failA: int, failB: int, atomic: bool): (r: (real, real))
    ensures atomic ==>
              var both := failA == 0 && failB == 0;
              r == NetFlows(deltaXA, deltaYA, deltaXB, deltaYB, both, both)
    ensures !atomic && IsBit(failA) && IsBit(failB) ==>
              r == NetFlows(deltaXA, deltaYA, deltaXB, deltaYB, failA == 0, failB == 0)
  {
    if atomic then
      if failA == 0 && failB == 0 then
        (deltaXB - deltaXA, deltaYA - deltaYB)
      else
        (0.0, 0.0)
    else
      (deltaXB * Survives(failB) - deltaXA * Survives(failA),
       deltaYA * Survives(failA) - deltaYB * Survives(failB))
  }

  /** When the two legs share their outcome, atomicity changes nothing. */
  lemma LiquidityRegimesAgreeWhenOutcomesAgree(
    deltaXA: real, deltaYA: real, deltaXB: real, deltaYB: real, failA: int, failB: int)
    requires IsBit(failA) && IsBit(failB) && failA == failB
    ensures ComputeLiquidityDiffs(deltaXA, deltaYA, deltaXB, deltaYB, failA, failB, true)
         == ComputeLiquidityDiffs(deltaXA, deltaYA, deltaXB, deltaYB, failA, failB, false)
  {
  }

  /** With the solver's trade, which buys on B the X it sells on A, atomic
      execution never leaves the arbitrageur holding X; non-atomic execution
      does exactly when one leg fails: with only A failing it keeps the X bought
      on B, with only B failing it is short the X sold on A. */
  lemma InventoryRiskOnlyWithoutAtomicity(
    deltaX: real, deltaYA: real, deltaYB: real, failA: int, failB: int)
    requires IsBit(failA) && IsBit(failB)
    ensures ComputeLiquidityDiffs(deltaX, deltaYA, deltaX, deltaYB, failA, failB, true).0 == 0.0
    ensures ComputeLiquidityDiffs(deltaX, deltaYA, deltaX, deltaYB, failA, failB, false).0
         == (if failA == 1 && failB == 0 then deltaX
             else if failA == 0 && failB == 1 then -deltaX
             else 0.0)
  {
  }
}
