/** Errors raised by the arbitrage formulas, and the result types that carry them. */
module Errors {

  /** The two ways the pool pair can fail the precondition of the arbitrage formulas. */
  datatype SpecError =
    | PriceNotAbove   // the pool on rollup A is not priced strictly above the pool on rollup B
    | FeeMismatch     // the two pools charge different fees

  /** A check that either passes or raises. */
  datatype CheckResult = Pass | Fail(error: SpecError)

  /** A computation that either returns a value or raises. */
  datatype Result<T> = Success(value: T) | Failure(error: SpecError)
}

/** The trade-size solver of the two-pool arbitrage and its checks: the
    precondition on the pool pair, the closed-form trade sizes that equalise the
    two pools' prices, the post-trade prices and the opportunity threshold. */
module Swap {
  import opened Errors
  import opened Rollup
  import opened Algebra

  /** The four amounts moved by the arbitrage: X sold and Y received on pool A,
      X bought and Y paid on pool B. */
  datatype TradeSizes = TradeSizes(deltaXA: real, deltaYA: real, deltaXB: real, deltaYB: real)

  /** The only square root the formulas take is that of x_A * y_A * x_B * y_B. */
  function PoolProduct(a: RollupSpec, b: RollupSpec): (v: real)
  {
    a.arbPoolReserveX * a.arbPoolReserveY * b.arbPoolReserveX * b.arbPoolReserveY
  }

  /** `root` is the non-negative square root of `v`. */
  predicate IsSqrtOf(root: real, v: real)
  {
    root >= 0.0 && Square(root) == v
  }

  /** Both pools can be fed to the formulas, and `root` is the square root of their product. */
  predicate ValidPair(a: RollupSpec, b: RollupSpec, root: real)
  {
    a.WellFormed() && b.WellFormed() && IsSqrtOf(root, PoolProduct(a, b))
  }

  /** Raises when pool A is not dearer than pool B (checked first) or when the fees differ. */
  function CheckRollupSpecs(a: RollupSpec, b: RollupSpec): (r: CheckResult)
    requires a.arbPoolReserveX != 0.0 && b.arbPoolReserveX != 0.0
    ensures r == Fail(PriceNotAbove) <==> a.GetArbPoolPriceInYUnits() <= b.GetArbPoolPriceInYUnits()
    ensures r == Fail(FeeMismatch)
        <==> a.GetArbPoolPriceInYUnits() > b.GetArbPoolPriceInYUnits() && a.GetArbPoolFee() != b.GetArbPoolFee()
    ensures r == Pass || r == Fail(PriceNotAbove) || r == Fail(FeeMismatch)
  {
    var priceA := a.GetArbPoolPriceInYUnits();
    var priceB := b.GetArbPoolPriceInYUnits();
    if priceA <= priceB then Fail(PriceNotAbove)
    else if a.GetArbPoolFee() != b.GetArbPoolFee() then Fail(FeeMismatch)
    else Pass
  }

  /** For positive X reserves the check passes exactly when y_A * x_B > y_B * x_A
      and the fees agree. */
  lemma CheckPassesIffCrossProduct(a: RollupSpec, b: RollupSpec)
    requires a.arbPoolReserveX > 0.0 && b.arbPoolReserveX > 0.0
    ensures CheckRollupSpecs(a, b) == Pass
        <==> a.arbPoolReserveY * b.arbPoolReserveX > b.arbPoolReserveY * a.arbPoolReserveX
             && a.arbPoolFee == b.arbPoolFee
  {
    PriceAboveIffCrossProduct(a, b);
  }

  /** The pools of the example run pass the check: A is priced at 1.05, B at 1.0,
      and both charge 0.5%. */
  lemma ExamplePoolsPassCheck()
    ensures ExampleRollupA().GetArbPoolPriceInYUnits() == 1.05
    ensures ExampleRollupB().GetArbPoolPriceInYUnits() == 1.0
    ensures CheckRollupSpecs(ExampleRollupA(), ExampleRollupB()) == Pass
  {
  }

  // ---------------------------------------------------------------------------
  // The closed-form trade sizes
  // ---------------------------------------------------------------------------

  /** The amount a constant-product pool pays out of `reserveOut` when
      `amountIn` is paid into `reserveIn` and only the share g = 1 - fee of it
      counts: (reserveOut * g * amountIn) / (reserveIn + g * amountIn). */
  function AmountOut(reserveOut: real, reserveIn: real, g: real, amountIn: real): (out: real)
    requires reserveIn + g * amountIn != 0.0
    ensures out * (reserveIn + g * amountIn) == reserveOut * g * amountIn
  {
    (reserveOut * g * amountIn) / (reserveIn + g * amountIn)
  }

  /** The Y paid on B: (sqrt(x_A*y_A*x_B*y_B) - x_A*y_B) / ((1-fee)*x_A + (1-fee)^2*x_B),
      the solution of a linear equation. */
  function PaidOnB(xA: real, yB: real, xB: real, g: real, root: real): (deltaYB: real)
    requires g * xA + Square(g) * xB != 0.0
    ensures (g * xA + Square(g) * xB) * deltaYB == root - xA * yB
  {
    (root - xA * yB) / (g * xA + Square(g) * xB)
  }

  /** The closed-form solution, without the check. It is defined for every
      well-formed pair; only when pool A is dearer does it describe a real trade. */
  function TradeSizeFormula(a: RollupSpec, b: RollupSpec, root: real): (t: TradeSizes)
    requires ValidPair(a, b, root)
    ensures t.deltaXA == t.deltaXB
    ensures SolvesTradeEquations(a.arbPoolReserveX, a.arbPoolReserveY, b.arbPoolReserveX, b.arbPoolReserveY,
                                 1.0 - a.arbPoolFee, root, t)
  {
    var (xA, yA) := a.GetArbPoolReserves();
    var (xB, yB) := b.GetArbPoolReserves();
    SolveTrade(xA, yA, xB, yB, 1.0 - a.GetArbPoolFee(), root)
  }

  /** The formula on the reserves x_A, y_A, x_B, y_B and g = 1 - fee. */
  function SolveTrade(xA: real, yA: real, xB: real, yB: real, g: real, root: real): (t: TradeSizes)
    requires xA > 0.0 && yA > 0.0 && xB > 0.0 && yB > 0.0 && 0.0 < g
    requires IsSqrtOf(root, xA * yA * xB * yB)
    ensures SolvesTradeEquations(xA, yA, xB, yB, g, root, t)
  {
    SolverDenominatorPositive(xA, xB, g);
    var deltaYB := PaidOnB(xA, yB, xB, g, root);
    PoolBAfterTradePositive(xA, xB, yB, g, root, deltaYB);
    var deltaXB := AmountOut(xB, yB, g, deltaYB);
    var deltaXA := deltaXB;
    PoolAAfterTradePositive(xA, yA, xB, yB, g, root, deltaYB, deltaXA);
    var deltaYA := AmountOut(yA, xA, g, deltaXA);
    TradeSizes(deltaXA, deltaYA, deltaXB, deltaYB)
  }

  /** The equations the closed form solves, with g = 1 - fee: the Y paid on B
      solves the linear equation that defines it, the X bought on B and the Y
      received on A are constant-product outputs net of the fee, the same X
      passes through both pools, and pool A's X reserve times pool B's Y reserve
      after the trade is the square root. */
  ghost predicate SolvesTradeEquations(xA: real, yA: real, xB: real, yB: real, g: real, root: real, t: TradeSizes)
  {
    && (g * xA + Square(g) * xB) * t.deltaYB == root - xA * yB
    && t.deltaXA == t.deltaXB
    && yB + g * t.deltaYB > 0.0
    && t.deltaXB * (yB + g * t.deltaYB) == xB * g * t.deltaYB
    && xA + g * t.deltaXA > 0.0
    && (xA + g * t.deltaXA) * (yB + g * t.deltaYB) == root
    && t.deltaYA * (xA + g * t.deltaXA) == yA * g * t.deltaXA
  }

  /** The trade equations have one solution: any two trades that solve them
      for the same pools are the same trade, so the closed form is the trade
      they describe. */
  lemma TradeEquationsDetermineTrade(
    xA: real, yA: real, xB: real, yB: real, g: real, root: real, t: TradeSizes, u: TradeSizes)
    requires xA > 0.0 && xB > 0.0 && g > 0.0
    requires SolvesTradeEquations(xA, yA, xB, yB, g, root, t)
    requires SolvesTradeEquations(xA, yA, xB, yB, g, root, u)
    ensures t == u
  {
    SolverDenominatorPositive(xA, xB, g);
    CancelFactor(t.deltaYB, u.deltaYB, g * xA + Square(g) * xB);
    CancelFactor(t.deltaXB, u.deltaXB, yB + g * t.deltaYB);
    CancelFactor(t.deltaYA, u.deltaYA, xA + g * t.deltaXA);
  }

  lemma SolverDenominatorPositive(xA: real, xB: real, g: real)
    requires xA > 0.0 && xB > 0.0 && g > 0.0
    ensures g * xA + Square(g) * xB > 0.0
  {
    ProductPositive(g, xA);
    ProductPositive(Square(g), xB);
  }

  /** Pool B's Y reserve after the trade, y_B + (1-fee)*delta_y_B, stays positive
      whatever the price order, and x_A times it plus (1-fee)^2 * x_B * delta_y_B
      is the square root. */
  lemma PoolBAfterTradePositive(xA: real, xB: real, yB: real, g: real, root: real, deltaYB: real)
    requires xA > 0.0 && xB > 0.0 && yB > 0.0 && 0.0 < g && root >= 0.0
    requires g * xA + Square(g) * xB > 0.0
    requires (g * xA + Square(g) * xB) * deltaYB == root - xA * yB
    ensures xA * (yB + g * deltaYB) + Square(g) * xB * deltaYB == root
    ensures yB + g * deltaYB > 0.0
  {
    var d := g * xA + Square(g) * xB;
    calc {
      xA * (yB + g * deltaYB) + Square(g) * xB * deltaYB;
      xA * yB + d * deltaYB;
      root;
    }
    // d * (y_B + g * delta_y_B) = g * root + g^2 * x_B * y_B > 0
    assert Square(g) == g * g;
    assert d * (yB + g * deltaYB) == g * root + Square(g) * (xB * yB);
    NonNegativeProduct(g, root);
    ProductPositive(xB, yB);
    ProductPositive(Square(g), xB * yB);
    PositiveFactor(d, yB + g * deltaYB);
  }

  /** Pool A's X reserve after the trade, x_A + (1-fee)*delta_x_A, times pool B's
      Y reserve after the trade is the square root, so it is positive too. */
  lemma PoolAAfterTradePositive(
    xA: real, yA: real, xB: real, yB: real, g: real, root: real, deltaYB: real, deltaXA: real)
    requires xA > 0.0 && yA > 0.0 && xB > 0.0 && yB > 0.0 && 0.0 < g
    requires IsSqrtOf(root, xA * yA * xB * yB)
    requires xA * (yB + g * deltaYB) + Square(g) * xB * deltaYB == root
    requires yB + g * deltaYB > 0.0
    requires deltaXA * (yB + g * deltaYB) == xB * g * deltaYB
    ensures (xA + g * deltaXA) * (yB + g * deltaYB) == root
    ensures root > 0.0
    ensures xA + g * deltaXA > 0.0
  {
    var u := yB + g * deltaYB;
    calc {
      (xA + g * deltaXA) * u;
      xA * u + g * (deltaXA * u);
      xA * u + g * (xB * g * deltaYB);
      { assert Square(g) == g * g; }
      root;
    }
    RootPositive(xA, yA, xB, yB, root);
    PositiveFactor(u, xA + g * deltaXA);
  }

  lemma RootPositive(xA: real, yA: real, xB: real, yB: real, root: real)
    requires xA > 0.0 && yA > 0.0 && xB > 0.0 && yB > 0.0
    requires IsSqrtOf(root, xA * yA * xB * yB)
    ensures root > 0.0
  {
    ProductPositive(xA, yA);
    ProductPositive(xB, yB);
    ProductPositive(xA * yA, xB * yB);
    assert xA * yA * xB * yB == (xA * yA) * (xB * yB);
    assert root != 0.0;
  }

  /** compute_arb_trade_sizes: raises as the check does; otherwise the closed-form
      trade, which buys and sells the same amount of X and stays inside both pools. */
  function ComputeArbTradeSizes(a: RollupSpec, b: RollupSpec, root: real): (r: Result<TradeSizes>)
    requires ValidPair(a, b, root)
    ensures r.Failure? <==> CheckRollupSpecs(a, b).Fail?
    ensures r.Failure? ==> r.error == CheckRollupSpecs(a, b).error
    ensures r.Success? ==> r.value == TradeSizeFormula(a, b, root)
    ensures r.Success? ==>
              SolvesTradeEquations(a.arbPoolReserveX, a.arbPoolReserveY, b.arbPoolReserveX, b.arbPoolReserveY,
                                   1.0 - a.arbPoolFee, root, r.value)
    ensures r.Success? ==> r.value.deltaXA == r.value.deltaXB
    ensures r.Success? ==> r.value.deltaYB > 0.0
    ensures r.Success? ==> 0.0 < r.value.deltaXB < b.arbPoolReserveX
    ensures r.Success? ==> 0.0 < r.value.deltaYA < a.arbPoolReserveY
  {
    match CheckRollupSpecs(a, b)
    case Fail(e) => Failure(e)
    case Pass =>
      TradeSizesInsidePools(a, b, root);
      Success(TradeSizeFormula(a, b, root))
  }

  /** When the check passes, the Y paid on B is positive, the X bought on B is
      positive and less than B's X reserve, and the Y received on A is positive
      and less than A's Y reserve. */
  lemma TradeSizesInsidePools(a: RollupSpec, b: RollupSpec, root: real)
    requires ValidPair(a, b, root) && CheckRollupSpecs(a, b) == Pass
    ensures TradeSizeFormula(a, b, root).deltaYB > 0.0
    ensures 0.0 < TradeSizeFormula(a, b, root).deltaXB < b.arbPoolReserveX
    ensures 0.0 < TradeSizeFormula(a, b, root).deltaYA < a.arbPoolReserveY
  {
    var xA, yA, xB, yB := a.arbPoolReserveX, a.arbPoolReserveY, b.arbPoolReserveX, b.arbPoolReserveY;
    CheckPassesIffCrossProduct(a, b);
    RootAboveCrossProduct(xA, yA, xB, yB, root);
    SolverDenominatorPositive(xA, xB, 1.0 - a.arbPoolFee);
    InsidePools(xA, yA, xB, yB, 1.0 - a.arbPoolFee, root, TradeSizeFormula(a, b, root));
  }

  lemma InsidePools(xA: real, yA: real, xB: real, yB: real, g: real, root: real, t: TradeSizes)
    requires xA > 0.0 && yA > 0.0 && xB > 0.0 && yB > 0.0 && 0.0 < g
    requires g * xA + Square(g) * xB > 0.0
    requires root > xA * yB
    requires SolvesTradeEquations(xA, yA, xB, yB, g, root, t)
    ensures t.deltaYB > 0.0
    ensures 0.0 < t.deltaXB < xB
    ensures 0.0 < t.deltaYA < yA
  {
    PositiveFactor(g * xA + Square(g) * xB, t.deltaYB);
    ProductPositive(g, t.deltaYB);
    OutputBelowReserve(xB, yB, g * t.deltaYB, t.deltaXB);
    ProductPositive(g, t.deltaXA);
    OutputBelowReserve(yA, xA, g * t.deltaXA, t.deltaYA);
  }

  /** A constant-product swap that adds `input` to the reserve of one token pays
      out strictly between zero and the whole reserve of the other:
      out * (inReserve + input) == outReserve * input. */
  lemma OutputBelowReserve(outReserve: real, inReserve: real, input: real, out: real)
    requires outReserve > 0.0 && inReserve > 0.0 && input > 0.0
    requires out * (inReserve + input) == outReserve * input
    ensures 0.0 < out < outReserve
  {
    ProductPositive(outReserve, input);
    PositiveFactor(inReserve + input, out);
    RemainingReservePositive(outReserve, inReserve, input, out);
  }

  /** After a constant-product swap that leaves the input reserve positive, the
      output reserve is still positive: (outReserve - out) * (inReserve + input)
      == outReserve * inReserve. */
  lemma RemainingReservePositive(outReserve: real, inReserve: real, input: real, out: real)
    requires outReserve > 0.0 && inReserve > 0.0 && inReserve + input > 0.0
    requires out * (inReserve + input) == outReserve * input
    ensures (outReserve - out) * (inReserve + input) == outReserve * inReserve
    ensures outReserve - out > 0.0
  {
    var s := inReserve + input;
    assert (outReserve - out) * s == outReserve * s - out * s;
    ProductPositive(outReserve, inReserve);
    assert s * (outReserve - out) > 0.0;
    PositiveFactor(s, outReserve - out);
  }

  /** From root^2 = x_A*y_A*x_B*y_B and y_A*x_B > y_B*x_A: root > x_A*y_B. */
  lemma RootAboveCrossProduct(xA: real, yA: real, xB: real, yB: real, root: real)
    requires xA > 0.0 && yA > 0.0 && xB > 0.0 && yB > 0.0
    requires IsSqrtOf(root, xA * yA * xB * yB)
    requires yA * xB > yB * xA
    ensures root > xA * yB
  {
    ProductPositive(xA, yB);
    assert xA * yA * xB * yB == Product(xA * yB, yA * xB);
    RootAbove(root, xA * yB, yA * xB);
  }

  // ---------------------------------------------------------------------------
  // Prices after the arbitrage
  // ---------------------------------------------------------------------------

  /** compute_prices_after_arb: the check first, then the two pools' Y/X ratios
      after the given trade, (price_end_A, price_end_B). The caller must not pass
      a trade that empties a pool's X reserve. */
  function ComputePricesAfterArb(a: RollupSpec, b: RollupSpec, t: TradeSizes): (r: Result<(real, real)>)
    requires a.arbPoolReserveX != 0.0 && b.arbPoolReserveX != 0.0
    requires CheckRollupSpecs(a, b) == Pass ==>
               b.arbPoolReserveX - t.deltaXB != 0.0 && a.arbPoolReserveX + (1.0 - a.arbPoolFee) * t.deltaXA != 0.0
    ensures r.Failure? <==> CheckRollupSpecs(a, b).Fail?
    ensures r.Failure? ==> r.error == CheckRollupSpecs(a, b).error
    ensures r.Success? ==>
              r.value.1 * (b.arbPoolReserveX - t.deltaXB) == b.arbPoolReserveY + (1.0 - a.arbPoolFee) * t.deltaYB
    ensures r.Success? ==>
              r.value.0 * (a.arbPoolReserveX + (1.0 - a.arbPoolFee) * t.deltaXA) == a.arbPoolReserveY - t.deltaYA
  {
    match CheckRollupSpecs(a, b)
    case Fail(e) => Failure(e)
    case Pass =>
      var (xA, yA) := a.GetArbPoolReserves();
      var (xB, yB) := b.GetArbPoolReserves();
      var fee := a.GetArbPoolFee();
      var priceEndB := (yB + (1.0 - fee) * t.deltaYB) / (xB - t.deltaXB);
      var priceEndA := (yA - t.deltaYA) / (xA + (1.0 - fee) * t.deltaXA);
      Success((priceEndA, priceEndB))
  }

  /** The solver's trade leaves both pools' X reserves positive, so the post-trade
      prices are defined for it: x_B - delta_x_B > 0 and x_A + (1-fee)*delta_x_A > 0. */
  lemma PostTradeDenominatorsPositive(a: RollupSpec, b: RollupSpec, root: real)
    requires ValidPair(a, b, root)
    ensures b.arbPoolReserveX - TradeSizeFormula(a, b, root).deltaXB > 0.0
    ensures a.arbPoolReserveX + (1.0 - a.arbPoolFee) * TradeSizeFormula(a, b, root).deltaXA > 0.0
  {
    var t := TradeSizeFormula(a, b, root);
    RemainingReservePositive(b.arbPoolReserveX, b.arbPoolReserveY, (1.0 - a.arbPoolFee) * t.deltaYB, t.deltaXB);
  }

  /** Over exact reals the solver does what it is for: after its trade both pools
      quote the same price. */
  lemma PricesEqualiseAfterArb(a: RollupSpec, b: RollupSpec, root: real)
    requires ValidPair(a, b, root) && CheckRollupSpecs(a, b) == Pass
    ensures ComputeArbTradeSizes(a, b, root).Success?
    ensures ComputePricesAfterArb(a, b, ComputeArbTradeSizes(a, b, root).value).Success?
    ensures var p := ComputePricesAfterArb(a, b, ComputeArbTradeSizes(a, b, root).value).value;
            p.0 == p.1
  {
    var t := TradeSizeFormula(a, b, root);
    assert ComputeArbTradeSizes(a, b, root) == Success(t);
    PostTradeDenominatorsPositive(a, b, root);
    PricesEqualiseAfterTrade(a, b, root, t);
  }

  /** The same for any trade that solves the solver's equations. */
  lemma PricesEqualiseAfterTrade(a: RollupSpec, b: RollupSpec, root: real, t: TradeSizes)
    requires ValidPair(a, b, root) && CheckRollupSpecs(a, b) == Pass
    requires SolvesTradeEquations(a.arbPoolReserveX, a.arbPoolReserveY, b.arbPoolReserveX, b.arbPoolReserveY,
                                  1.0 - a.arbPoolFee, root, t)
    requires b.arbPoolReserveX - t.deltaXB > 0.0
    ensures var p := ComputePricesAfterArb(a, b, t).value;
            p.0 == p.1
  {
    var p := ComputePricesAfterArb(a, b, t).value;
    var xA, yA, xB, yB := a.arbPoolReserveX, a.arbPoolReserveY, b.arbPoolReserveX, b.arbPoolReserveY;
    var g, pA, pB := 1.0 - a.arbPoolFee, p.0, p.1;
    assert pB * (xB - t.deltaXB) == yB + g * t.deltaYB;
    assert pA * (xA + g * t.deltaXA) == yA - t.deltaYA;
    assert Square(root) == xA * yA * xB * yB;
    EqualPrices(xA, yA, xB, yB, g, root, t, pA, pB);
  }

  /** The algebra behind PricesEqualiseAfterArb. With u and w pool B's Y reserve
      and pool A's X reserve after the trade, both prices equal u^2 / (x_B * y_B). */
  lemma EqualPrices(xA: real, yA: real, xB: real, yB: real, g: real, root: real, t: TradeSizes, pA: real, pB: real)
    requires xA > 0.0 && yA > 0.0 && xB > 0.0 && yB > 0.0
    requires Square(root) == xA * yA * xB * yB
    requires SolvesTradeEquations(xA, yA, xB, yB, g, root, t)
    requires pB * (xB - t.deltaXB) == yB + g * t.deltaYB
    requires pA * (xA + g * t.deltaXA) == yA - t.deltaYA
    ensures pA == pB
  {
    var u := yB + g * t.deltaYB;
    var w := xA + g * t.deltaXA;
    // x_B - delta_x_B = x_B * y_B / u and y_A - delta_y_A = y_A * x_A / w
    RemainingReservePositive(xB, yB, g * t.deltaYB, t.deltaXB);
    RemainingReservePositive(yA, xA, g * t.deltaXA, t.deltaYA);
    // hence pB * (x_B * y_B) = u^2 and pA * w^2 = x_A * y_A
    assert pB * (xB * yB) == u * u by {
      assert pB * (xB * yB) == pB * ((xB - t.deltaXB) * u) == (pB * (xB - t.deltaXB)) * u;
    }
    assert pA * (w * w) == xA * yA by {
      assert pA * (w * w) == (pA * w) * w == (yA - t.deltaYA) * w;
    }
    // and w^2 * u^2 = root^2 = x_A * y_A * x_B * y_B
    assert (w * w) * (u * u) == (xA * yA) * (xB * yB) by {
      assert (w * w) * (u * u) == (w * u) * (w * u);
    }
    calc {
      pA * ((xA * yA) * (xB * yB));
      pA * ((w * w) * (u * u));
      (pA * (w * w)) * (u * u);
      (xA * yA) * (u * u);
      (xA * yA) * (pB * (xB * yB));
      pB * ((xA * yA) * (xB * yB));
    }
    ProductPositive(xA, yA);
    ProductPositive(xB, yB);
    ProductPositive(xA * yA, xB * yB);
    CancelFactor(pA, pB, (xA * yA) * (xB * yB));
  }

  // ---------------------------------------------------------------------------
  // The arbitrage-opportunity threshold
  // ---------------------------------------------------------------------------

  /** compute_arb_opportunity_threshold: the check first, then
      x_B * y_A * (1-fee)^2 / sqrt(x_A * y_A * x_B * y_B), a positive number. */
  function ComputeArbOpportunityThreshold(a: RollupSpec, b: RollupSpec, root: real): (r: Result<real>)
    requires ValidPair(a, b, root)
    ensures r.Failure? <==> CheckRollupSpecs(a, b).Fail?
    ensures r.Failure? ==> r.error == CheckRollupSpecs(a, b).error
    ensures r.Success? ==> r.value > 0.0
    ensures r.Success? ==>
              r.value * root == b.arbPoolReserveX * a.arbPoolReserveY * Square(1.0 - a.arbPoolFee)
  {
    match CheckRollupSpecs(a, b)
    case Fail(e) => Failure(e)
    case Pass =>
      var (xA, yA) := a.GetArbPoolReserves();
      var (xB, yB) := b.GetArbPoolReserves();
      var fee := a.GetArbPoolFee();
      ThresholdNumeratorPositive(xB, yA, 1.0 - fee);
      RootPositive(xA, yA, xB, yB, root);
      var thresNum := xB * yA * Square(1.0 - fee);
      var thresDenum := root;
      Success(PositiveQuotient(thresNum, thresDenum))
  }

  lemma ThresholdNumeratorPositive(xB: real, yA: real, g: real)
    requires xB > 0.0 && yA > 0.0 && g > 0.0
    ensures xB * yA * Square(g) > 0.0
  {
    ProductPositive(xB, yA);
    ProductPositive(xB * yA, Square(g));
  }

  /** n / d for a positive divisor: positive when n is positive. */
  function PositiveQuotient(n: real, d: real): (q: real)
    requires d > 0.0
    ensures q * d == n
    ensures n > 0.0 ==> q > 0.0
  {
    var q := n / d;
    assert q * d == n;
    if n > 0.0 then
      PositiveFactor(d, q);
      q
    else q
  }

  /** contains_arb_opportunity: raises as the check does, otherwise true exactly
      when the threshold exceeds 1. */
  function ContainsArbOpportunity(a: RollupSpec, b: RollupSpec, root: real): (r: Result<bool>)
    requires ValidPair(a, b, root)
    ensures r.Failure? <==> CheckRollupSpecs(a, b).Fail?
    ensures r.Failure? ==> r.error == CheckRollupSpecs(a, b).error
    ensures r.Success? ==> (r.value <==> ComputeArbOpportunityThreshold(a, b, root).value > 1.0)
  {
    match ComputeArbOpportunityThreshold(a, b, root)
    case Failure(e) => Failure(e)
    case Success(threshold) => if threshold > 1.0 then Success(true) else Success(false)
  }

  /** The threshold test is stricter than the check: it reports an opportunity
      exactly when pool A's price, discounted by the factor (1-fee)^4, still
      exceeds pool B's price. With a zero fee it is the check's own condition. */
  lemma OpportunityIffDiscountedPriceAbove(a: RollupSpec, b: RollupSpec, root: real)
    requires ValidPair(a, b, root) && CheckRollupSpecs(a, b) == Pass
    ensures ContainsArbOpportunity(a, b, root).Success?
    ensures ContainsArbOpportunity(a, b, root).value
            <==> Square(Square(1.0 - a.arbPoolFee)) * a.GetArbPoolPriceInYUnits() > b.GetArbPoolPriceInYUnits()
  {
    var xA, yA, xB, yB := a.arbPoolReserveX, a.arbPoolReserveY, b.arbPoolReserveX, b.arbPoolReserveY;
    var g2 := Square(1.0 - a.arbPoolFee);
    var th := ComputeArbOpportunityThreshold(a, b, root).value;
    var n := xB * yA * g2;
    RootPositive(xA, yA, xB, yB, root);
    ThresholdNumeratorPositive(xB, yA, 1.0 - a.arbPoolFee);
    // threshold > 1  <==>  n > root  <==>  n^2 > root^2
    ThresholdAboveOneIff(th, n, root);
    SquareComparison(n, root);
    // n^2 > root^2  <==>  g^4 * y_A * x_B > x_A * y_B
    SquaresCompared(xA, yA, xB, yB, g2, root);
    // g^4 * y_A * x_B > x_A * y_B  <==>  g^4 * price_A > price_B
    DiscountedPriceCompared(a, b, Square(g2));
  }

  lemma SquaresCompared(xA: real, yA: real, xB: real, yB: real, g2: real, root: real)
    requires xA > 0.0 && yA > 0.0 && xB > 0.0 && yB > 0.0
    requires Square(root) == xA * yA * xB * yB
    ensures Square(xB * yA * g2) > Square(root) <==> Square(g2) * yA * xB > xA * yB
  {
    var c := xB * yA;
    assert Square(c * g2) == c * (Square(g2) * yA * xB);
    assert Square(root) == c * (xA * yB);
    ProductPositive(xB, yA);
    CompareScaled(Square(g2) * yA * xB, xA * yB, c);
  }

  lemma DiscountedPriceCompared(a: RollupSpec, b: RollupSpec, g4: real)
    requires a.arbPoolReserveX > 0.0 && b.arbPoolReserveX > 0.0
    ensures g4 * a.arbPoolReserveY * b.arbPoolReserveX > a.arbPoolReserveX * b.arbPoolReserveY
        <==> g4 * a.GetArbPoolPriceInYUnits() > b.GetArbPoolPriceInYUnits()
  {
    var xA, xB := a.arbPoolReserveX, b.arbPoolReserveX;
    var pA, pB := a.GetArbPoolPriceInYUnits(), b.GetArbPoolPriceInYUnits();
    assert g4 * a.arbPoolReserveY * xB == (xA * xB) * (g4 * pA) by {
      assert a.arbPoolReserveY == pA * xA;
    }
    assert xA * b.arbPoolReserveY == (xA * xB) * pB by {
      assert b.arbPoolReserveY == pB * xB;
    }
    ProductPositive(xA, xB);
    CompareScaled(g4 * pA, pB, xA * xB);
  }

  lemma ThresholdAboveOneIff(th: real, n: real, root: real)
    requires root > 0.0 && th * root == n
    ensures th > 1.0 <==> n > root
  {
    CompareScaled(th, 1.0, root);
  }

  /** The example pools hold an opportunity: with a 0.5% fee their threshold,
      1039526.25 / sqrt(1.05e12), is about 1.0145. */
  lemma ExamplePoolsContainOpportunity(root: real)
    requires IsSqrtOf(root, PoolProduct(ExampleRollupA(), ExampleRollupB()))
    ensures ContainsArbOpportunity(ExampleRollupA(), ExampleRollupB(), root) == Success(true)
  {
    var a, b := ExampleRollupA(), ExampleRollupB();
    ExamplePoolsPassCheck();
    assert PoolProduct(a, b) == 1050000000000.0;
    var n := 1039526.25;
    assert Square(1.0 - a.arbPoolFee) == 0.990025;
    assert b.arbPoolReserveX * a.arbPoolReserveY * Square(1.0 - a.arbPoolFee) == n;
    assert Square(n) > Square(root);
    SquareComparison(n, root);
    RootPositive(a.arbPoolReserveX, a.arbPoolReserveY, b.arbPoolReserveX, b.arbPoolReserveY, root);
    var th := ComputeArbOpportunityThreshold(a, b, root).value;
    ThresholdAboveOneIff(th, n, root);
  }
}
