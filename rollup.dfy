/** The pool record of one rollup: its failure rate, the gas units a swap and a
    failed swap burn, and the reserves and fee of the constant-product pool used
    for the arbitrage. The record is never changed after construction. */
module Rollup {
  import opened Algebra

  datatype RollupSpec = RollupSpec(
    failRate: real,
    gasUnitsSwap: real,
    gasUnitsFail: real,
    arbPoolReserveX: real,
    arbPoolReserveY: real,
    arbPoolFee: real)
  {
    function GetFailRate(): (r: real) { failRate }

    function GetGasUnitsSwap(): (g: real) { gasUnitsSwap }

    function GetGasUnitsFail(): (g: real) { gasUnitsFail }

    function GetArbPoolReserves(): (reserves: (real, real)) { (arbPoolReserveX, arbPoolReserveY) }

    function GetArbPoolFee(): (fee: real) { arbPoolFee }

    /** Price of one unit of X in units of Y; the division needs a non-zero X reserve. */
    function GetArbPoolPriceInYUnits(): (p: real)
      requires arbPoolReserveX != 0.0
      ensures p * arbPoolReserveX == arbPoolReserveY
    {
      arbPoolReserveY / arbPoolReserveX
    }

    /** Reserves strictly positive and a fee in [0, 1): the pools the trade-size
        formula can be evaluated on without a division by zero. */
    predicate WellFormed()
    {
      arbPoolReserveX > 0.0 && arbPoolReserveY > 0.0 && 0.0 <= arbPoolFee < 1.0
    }
  }

  /** The constructor: every getter gives back the argument it was built from. */
  function NewRollupSpec(
    failRate: real, gasUnitsSwap: real, gasUnitsFail: real,
    reserveX: real, reserveY: real, fee: real): (r: RollupSpec)
    ensures r.GetFailRate() == failRate
    ensures r.GetGasUnitsSwap() == gasUnitsSwap && r.GetGasUnitsFail() == gasUnitsFail
    ensures r.GetArbPoolReserves() == (reserveX, reserveY)
    ensures r.GetArbPoolFee() == fee
  {
    RollupSpec(failRate, gasUnitsSwap, gasUnitsFail, reserveX, reserveY, fee)
  }

  /** With positive X reserves, comparing prices is comparing the cross products
      of the reserves, so no division is needed to decide which pool is dearer. */
  lemma PriceAboveIffCrossProduct(a: RollupSpec, b: RollupSpec)
    requires a.arbPoolReserveX > 0.0 && b.arbPoolReserveX > 0.0
    ensures a.GetArbPoolPriceInYUnits() > b.GetArbPoolPriceInYUnits()
        <==> a.arbPoolReserveY * b.arbPoolReserveX > b.arbPoolReserveY * a.arbPoolReserveX
  {
    var pa, pb := a.GetArbPoolPriceInYUnits(), b.GetArbPoolPriceInYUnits();
    var xa, xb := a.arbPoolReserveX, b.arbPoolReserveX;
    assert a.arbPoolReserveY * xb == (xa * xb) * pa;
    assert b.arbPoolReserveY * xa == (xa * xb) * pb;
    ProductPositive(xa, xb);
    CompareScaled(pa, pb, xa * xb);
  }

  /** The two pools of the example run: A holds (1000, 1050), B holds (1000, 1000),
      both with a 0.5% fee, a 50% failure rate, 10 gas units per swap and 1 per failure. */
  function ExampleRollupA(): (r: RollupSpec)
    ensures r.WellFormed() && r.GetArbPoolPriceInYUnits() == 1.05
  {
    NewRollupSpec(0.5, 10.0, 1.0, 1000.0, 1050.0, 0.005)
  }

  function ExampleRollupB(): (r: RollupSpec)
    ensures r.WellFormed() && r.GetArbPoolPriceInYUnits() == 1.0
  {
    NewRollupSpec(0.5, 10.0, 1.0, 1000.0, 1000.0, 0.005)
  }
}
