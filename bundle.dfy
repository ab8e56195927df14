/** The value of the two bundles of the arbitrage, in stable-token units: the
    bundle on rollup B buys X with Y, the bundle on rollup A sells that X for Y.
    Each bundle's pure profit is what it receives minus what it pays, both net
    of the stable-token trading fee and valued at its own pool's pre-trade
    price, and it is zero when the bundle fails. */
module Bundle {
  import opened Errors
  import opened Rollup
  import opened Algebra
  import opened Outcomes
  import Swap

  /** compute_atomic_bundle_profit: both bundles count when both execute, and
      none counts otherwise. */
  function ComputeAtomicBundleProfit(pureA: real, pureB: real, failA: int, failB: int): (r: real)
    ensures failA == 0 && failB == 0 ==> r == ComputeNonAtomicBundleProfit(pureA, pureB)
    ensures failA != 0 || failB != 0 ==> r == 0.0
  {
    if failA == 0 && failB == 0 then pureA + pureB else 0.0
  }

  /** compute_non_atomic_bundle_profit: each bundle counts on its own; a failed
      bundle already has a zero pure profit. */
  function ComputeNonAtomicBundleProfit(pureA: real, pureB: real): (r: real)
    ensures r == pureA + pureB
  {
    pureA + pureB
  }

  /** The copy of the trade-size formula kept next to the profit formulas. It
      does not run the check, and wherever the check passes it is the trade of
      Swap.ComputeArbTradeSizes. */
  function ComputeArbTradeSizes(a: RollupSpec, b: RollupSpec, root: real): (t: Swap.TradeSizes)
    requires Swap.ValidPair(a, b, root)
    ensures t.deltaXA == t.deltaXB
    ensures Swap.SolvesTradeEquations(a.arbPoolReserveX, a.arbPoolReserveY, b.arbPoolReserveX,
                                      b.arbPoolReserveY, 1.0 - a.arbPoolFee, root, t)
    ensures Swap.CheckRollupSpecs(a, b) == Pass ==> Swap.ComputeArbTradeSizes(a, b, root) == Success(t)
  {
    Swap.TradeSizeFormula(a, b, root)
  }

  /** compute_pure_bundle_profits: the check first, then (profit of bundle A,
      profit of bundle B) for the solver's trade. `yPrice` is the price of Y
      drawn for this attempt and `feeStable` the stable-token trading fee; the
      X price on each rollup is its pool price times `yPrice`, so the profits
      are those TradeProfits gives for the solver's trade. */
  function ComputePureBundleProfits(
    a: RollupSpec, b: RollupSpec, failA: int, failB: int, yPrice: real, feeStable: real, root: real)
    : (r: Result<(real, real)>)
    requires Swap.ValidPair(a, b, root)
    ensures r.Failure? <==> Swap.CheckRollupSpecs(a, b).Fail?
    ensures r.Failure? ==> r.error == Swap.CheckRollupSpecs(a, b).error
    ensures r.Success? && failA == 1 ==> r.value.0 == 0.0
    ensures r.Success? && failB == 1 ==> r.value.1 == 0.0
    ensures r.Success? ==>
              r.value == TradeProfits(ComputeArbTradeSizes(a, b, root), a.GetArbPoolPriceInYUnits(),
                                      b.GetArbPoolPriceInYUnits(), failA, failB, yPrice, feeStable)
  {
    match Swap.CheckRollupSpecs(a, b)
    case Fail(e) => Failure(e)
    case Pass =>
      var t := ComputeArbTradeSizes(a, b, root);
      Success(TradeProfits(t, a.GetArbPoolPriceInYUnits(), b.GetArbPoolPriceInYUnits(), failA, failB, yPrice, feeStable))
  }

  /** The two pure profits of the trade t, with X priced on each rollup at its
      pool price (in Y) times the Y price: (profit of bundle A, profit of
      bundle B). With the Y price factored out, bundle A earns the Y it
      receives less the X it sells at pool A's price, bundle B the X it
      receives at pool B's price less the Y it pays, each net of the fee and
      zero when the bundle fails. */
  function TradeProfits(
    t: Swap.TradeSizes, priceA: real, priceB: real, failA: int, failB: int, yPrice: real, feeStable: real)
    : (r: (real, real))
    ensures r.0 == (1.0 - feeStable) * yPrice * (t.deltaYA - t.deltaXA * priceA) * Survives(failA)
    ensures r.1 == (1.0 - feeStable) * yPrice * (t.deltaXB * priceB - t.deltaYB) * Survives(failB)
  {
    var xPriceA := priceA * yPrice;
    var xPriceB := priceB * yPrice;
    // bundle B pays Y and receives X; bundle A pays X and receives Y
    var pureBundleProfitB := BundleProfit(t.deltaXB, xPriceB, t.deltaYB, yPrice, feeStable, failB);
    var pureBundleProfitA := BundleProfit(t.deltaYA, yPrice, t.deltaXA, xPriceA, feeStable, failA);
    assert t.deltaXB * xPriceB == (t.deltaXB * priceB) * yPrice;
    assert t.deltaXA * xPriceA == (t.deltaXA * priceA) * yPrice;
    FactorPrice(t.deltaXB * priceB, t.deltaYB, yPrice, feeStable, Survives(failB));
    FactorPrice(t.deltaYA, t.deltaXA * priceA, yPrice, feeStable, Survives(failA));
    (pureBundleProfitA, pureBundleProfitB)
  }

  /** Valuing both amounts at one price factors that price out of the
      difference. */
  lemma FactorPrice(r: real, q: real, y: real, feeStable: real, s: real)
    ensures (1.0 - feeStable) * (r * y - q * y) * s == (1.0 - feeStable) * y * (r - q) * s
  {
    assert r * y - q * y == y * (r - q);
  }

  /** One bundle's pure profit: the stable tokens received minus the stable
      tokens paid, each amount valued at its price net of the stable-token fee,
      and nothing at all when the bundle fails. It is negative when the bundle
      executes and receives less than it pays at those prices. */
  function BundleProfit(
    amountReceived: real, priceReceived: real, amountPaid: real, pricePaid: real,
    feeStable: real, fail: int): (v: real)
    ensures v == (1.0 - feeStable) * (amountReceived * priceReceived - amountPaid * pricePaid) * Survives(fail)
    ensures fail == 1 ==> v == 0.0
    ensures fail == 0 && feeStable < 1.0 && amountReceived * priceReceived < amountPaid * pricePaid ==> v < 0.0
  {
    var stableTokensPaid := amountPaid * (1.0 - feeStable) * pricePaid;
    var stableTokensReceived := amountReceived * (1.0 - feeStable) * priceReceived;
    assert stableTokensReceived == (1.0 - feeStable) * (amountReceived * priceReceived);
    assert stableTokensPaid == (1.0 - feeStable) * (amountPaid * pricePaid);
    ScalingKeepsOrder(amountReceived * priceReceived, amountPaid * pricePaid, 1.0 - feeStable);
    (stableTokensReceived - stableTokensPaid) * Survives(fail)
  }

  /** With the pure profits of one attempt, the two regimes value the bundles
      alike whenever both bundles share their outcome: both execute, or both
      fail and are worth nothing either way. */
  lemma BundleRegimesAgreeWhenOutcomesAgree(
    a: RollupSpec, b: RollupSpec, failA: int, failB: int, yPrice: real, feeStable: real, root: real)
    requires Swap.ValidPair(a, b, root) && Swap.CheckRollupSpecs(a, b) == Pass
    requires IsBit(failA) && IsBit(failB) && failA == failB
    ensures var p := ComputePureBundleProfits(a, b, failA, failB, yPrice, feeStable, root).value;
            ComputeAtomicBundleProfit(p.0, p.1, failA, failB) == ComputeNonAtomicBundleProfit(p.0, p.1)
  {
  }

  /** Valued as the formulas value it, each executed bundle loses: bundle B
      receives less X than its Y buys at pool B's pre-trade price, and bundle A
      receives less Y than its X is worth at pool A's pre-trade price, because
      each trade moves its pool's price against it. So for a positive Y price
      and a stable fee below 1 each executed bundle's pure profit is negative. */
  lemma ExecutedBundlesLoseValue(
    a: RollupSpec, b: RollupSpec, failA: int, failB: int, yPrice: real, feeStable: real, root: real)
    requires Swap.ValidPair(a, b, root) && Swap.CheckRollupSpecs(a, b) == Pass
    requires yPrice > 0.0 && feeStable < 1.0
    ensures var p := ComputePureBundleProfits(a, b, failA, failB, yPrice, feeStable, root).value;
            (failA == 0 ==> p.0 < 0.0) && (failB == 0 ==> p.1 < 0.0)
  {
    var t := ComputeArbTradeSizes(a, b, root);
    var pA, pB := a.GetArbPoolPriceInYUnits(), b.GetArbPoolPriceInYUnits();
    TradeBelowPoolPrices(a, b, root);
    assert t.deltaXB * (pB * yPrice) == yPrice * (t.deltaXB * pB);
    assert t.deltaYB * yPrice == yPrice * t.deltaYB;
    CompareScaled(t.deltaYB, t.deltaXB * pB, yPrice);
    assert t.deltaXA * (pA * yPrice) == yPrice * (t.deltaXA * pA);
    assert t.deltaYA * yPrice == yPrice * t.deltaYA;
    CompareScaled(t.deltaXA * pA, t.deltaYA, yPrice);
  }

  /** The sign of an executed bundle's profit follows the Y price, which the
      price model may draw as zero or negative: a zero Y price makes both pure
      profits zero, and a negative one makes every executed bundle's pure
      profit positive. */
  lemma BundleProfitsFollowYPrice(
    a: RollupSpec, b: RollupSpec, failA: int, failB: int, yPrice: real, feeStable: real, root: real)
    requires Swap.ValidPair(a, b, root) && Swap.CheckRollupSpecs(a, b) == Pass
    requires feeStable < 1.0
    ensures var p := ComputePureBundleProfits(a, b, failA, failB, yPrice, feeStable, root).value;
            && (yPrice == 0.0 ==> p == (0.0, 0.0))
            && (yPrice < 0.0 ==> (failA == 0 ==> p.0 > 0.0) && (failB == 0 ==> p.1 > 0.0))
  {
    TradeBelowPoolPrices(a, b, root);
    TradeProfitsFollowYPrice(ComputeArbTradeSizes(a, b, root), a.GetArbPoolPriceInYUnits(),
                             b.GetArbPoolPriceInYUnits(), failA, failB, yPrice, feeStable);
  }

  /** The same for any trade that gives more than it gets at the two prices. */
  lemma TradeProfitsFollowYPrice(
    t: Swap.TradeSizes, priceA: real, priceB: real, failA: int, failB: int, yPrice: real, feeStable: real)
    requires t.deltaXB * priceB < t.deltaYB && t.deltaYA < t.deltaXA * priceA
    requires feeStable < 1.0
    ensures var p := TradeProfits(t, priceA, priceB, failA, failB, yPrice, feeStable);
            && (yPrice == 0.0 ==> p == (0.0, 0.0))
            && (yPrice < 0.0 ==> (failA == 0 ==> p.0 > 0.0) && (failB == 0 ==> p.1 > 0.0))
  {
    var p := TradeProfits(t, priceA, priceB, failA, failB, yPrice, feeStable);
    var k, dA, dB := 1.0 - feeStable, t.deltaYA - t.deltaXA * priceA, t.deltaXB * priceB - t.deltaYB;
    assert p.0 == k * yPrice * dA * Survives(failA);
    assert p.1 == k * yPrice * dB * Survives(failB);
    ScaledByNegative(k, yPrice, dA, Survives(failA));
    ScaledByNegative(k, yPrice, dB, Survives(failB));
  }

  /** k * y * d * s, for a positive k and a negative d, is zero when y is zero,
      and positive when y is negative and s is 1. */
  lemma ScaledByNegative(k: real, y: real, d: real, s: real)
    requires k > 0.0 && d < 0.0
    ensures y == 0.0 ==> k * y * d * s == 0.0
    ensures y < 0.0 && s == 1.0 ==> k * y * d * s > 0.0
  {
    if y < 0.0 {
      ProductPositive(k, -y);
      ProductPositive(k * -y, -d);
      assert k * y * d == (k * -y) * -d;
    }
  }

  /** At the pools' pre-trade prices the solver's trade gives more than it gets
      on both rollups: delta_x_B * price_B < delta_y_B and
      delta_y_A < delta_x_A * price_A. */
  lemma TradeBelowPoolPrices(a: RollupSpec, b: RollupSpec, root: real)
    requires Swap.ValidPair(a, b, root) && Swap.CheckRollupSpecs(a, b) == Pass
    ensures var t := ComputeArbTradeSizes(a, b, root);
            t.deltaXB * b.GetArbPoolPriceInYUnits() < t.deltaYB
            && t.deltaYA < t.deltaXA * a.GetArbPoolPriceInYUnits()
  {
    var t := Swap.TradeSizeFormula(a, b, root);
    Swap.TradeSizesInsidePools(a, b, root);
    var xA, yA, xB, yB := a.arbPoolReserveX, a.arbPoolReserveY, b.arbPoolReserveX, b.arbPoolReserveY;
    var g, pA, pB := 1.0 - a.arbPoolFee, a.GetArbPoolPriceInYUnits(), b.GetArbPoolPriceInYUnits();
    assert ComputeArbTradeSizes(a, b, root) == t;
    TradeBelowPrices(xA, yA, xB, yB, g, pA, pB, root, t);
  }

  /** The algebra behind TradeBelowPoolPrices, for any trade that solves the
      solver's equations and moves positive amounts. */
  lemma TradeBelowPrices(
    xA: real, yA: real, xB: real, yB: real, g: real, pA: real, pB: real, root: real, t: Swap.TradeSizes)
    requires xA > 0.0 && yA > 0.0 && xB > 0.0 && yB > 0.0 && 0.0 < g <= 1.0
    requires pA * xA == yA && pB * xB == yB
    requires Swap.SolvesTradeEquations(xA, yA, xB, yB, g, root, t)
    requires t.deltaYB > 0.0 && t.deltaXB > 0.0
    ensures t.deltaXB * pB < t.deltaYB && t.deltaYA < t.deltaXA * pA
  {
    SwapBelowSpotValue(xB, yB, g, t.deltaYB, t.deltaXB);
    BelowAtPrice(t.deltaXB, t.deltaYB, pB, xB, yB);
    SwapBelowSpotValue(yA, xA, g, t.deltaXA, t.deltaYA);
    AboveAtPrice(t.deltaYA, t.deltaXA, pA, xA, yA);
  }

  /** A constant-product pool with reserves (reserveOut, reserveIn) that takes
      amountIn, of which the share g <= 1 counts, pays out less than the pool's
      pre-trade price would: amountOut * reserveIn < amountIn * reserveOut. */
  lemma SwapBelowSpotValue(reserveOut: real, reserveIn: real, g: real, amountIn: real, amountOut: real)
    requires reserveOut > 0.0 && reserveIn > 0.0 && 0.0 < g <= 1.0 && amountIn > 0.0
    requires amountOut * (reserveIn + g * amountIn) == reserveOut * g * amountIn
    ensures amountOut * reserveIn < amountIn * reserveOut
  {
    var s := reserveIn + g * amountIn;
    ProductPositive(g, amountIn);
    // (amountIn * reserveOut - amountOut * reserveIn) * s
    //   == amountIn * reserveOut * reserveIn * (1 - g) + g * amountIn * amountIn * reserveOut
    var gap := amountIn * reserveOut - amountOut * reserveIn;
    assert gap * s == amountIn * reserveOut * s - (amountOut * s) * reserveIn;
    assert gap * s == (amountIn * reserveOut) * (reserveIn * (1.0 - g)) + (g * amountIn) * (amountIn * reserveOut);
    ProductPositive(amountIn, reserveOut);
    NonNegativeProduct(amountIn * reserveOut, reserveIn * (1.0 - g));
    ProductPositive(g * amountIn, amountIn * reserveOut);
    PositiveFactor(s, gap);
  }

  /** From out * y < in * x with price * x == y: out * price < in. */
  lemma BelowAtPrice(amountOut: real, amountIn: real, price: real, x: real, y: real)
    requires x > 0.0 && price * x == y && amountOut * y < amountIn * x
    ensures amountOut * price < amountIn
  {
    assert amountOut * y == x * (amountOut * price);
    CompareScaled(amountOut * price, amountIn, x);
  }

  /** From out * x < in * y with price * x == y: out < in * price. */
  lemma AboveAtPrice(amountOut: real, amountIn: real, price: real, x: real, y: real)
    requires x > 0.0 && price * x == y && amountOut * x < amountIn * y
    ensures amountOut < amountIn * price
  {
    assert amountIn * y == x * (amountIn * price);
    CompareScaled(amountOut, amountIn * price, x);
  }
}
