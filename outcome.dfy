/** The failure outcome drawn for one leg of the arbitrage on its rollup: 0
    when the leg's bundle executes, 1 when it fails. The formulas take the
    outcome as an integer and use it both as a test (`== 0`) and as a factor
    (`1 - outcome`); the two readings agree only on 0 and 1. */
module Outcomes {

  /** A Bernoulli draw: 0 or 1. */
  predicate IsBit(f: int)
  {
    f == 0 || f == 1
  }

  /** The factor 1 - f by which a leg's amounts are scaled. */
  function Survives(f: int): (s: real)
    ensures f == 0 ==> s == 1.0
    ensures f == 1 ==> s == 0.0
  {
    (1 - f) as real
  }
}
