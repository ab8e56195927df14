/** Small facts of ordered-field arithmetic over `real`, each stated on plain
    variables so that the solver meets one nonlinear step at a time. */
module Algebra {

  /** p * q, with its sign rule. */
  function Product(p: real, q: real): (r: real)
    ensures p > 0.0 && q > 0.0 ==> r > 0.0
    ensures p >= 0.0 && q >= 0.0 ==> r >= 0.0
  {
    p * q
  }

  /** v squared (Python's `v ** 2`). */
  function Square(v: real): (s: real)
    ensures v > 0.0 ==> s > 0.0
  {
    Product(v, v)
  }

  lemma PositiveFactor(d: real, v: real)
    requires d > 0.0 && d * v > 0.0
    ensures v > 0.0
  {
  }

  lemma ProductPositive(p: real, q: real)
    requires p > 0.0 && q > 0.0
    ensures p * q > 0.0
  {
  }

  lemma NonNegativeProduct(p: real, q: real)
    requires p >= 0.0 && q >= 0.0
    ensures p * q >= 0.0
  {
  }

  /** Scaling both sides by a positive factor keeps the strict order, both ways. */
  lemma CompareScaled(p: real, q: real, c: real)
    requires c > 0.0
    ensures p > q <==> c * p > c * q
  {
    if p > q {
      ProductPositive(c, p - q);
    } else {
      NonNegativeProduct(c, q - p);
    }
  }

  /** The same as CompareScaled in one direction, for callers that cannot
      establish the sign of the factor beforehand. */
  lemma ScalingKeepsOrder(p: real, q: real, c: real)
    ensures c > 0.0 && p < q ==> c * p < c * q
  {
    if c > 0.0 {
      CompareScaled(q, p, c);
    }
  }

  lemma CancelFactor(p: real, q: real, c: real)
    requires c != 0.0 && p * c == q * c
    ensures p == q
  {
    assert (p - q) * c == 0.0;
  }

  /** p^2 - q^2 == (p - q) * (p + q). */
  lemma DifferenceOfSquares(p: real, q: real)
    ensures Square(p) - Square(q) == Product(p - q, p + q)
  {
    assert Square(p) == p * p && Square(q) == q * q;
  }

  /** For non-negative p and q: p > q exactly when p^2 > q^2. */
  lemma SquareComparison(p: real, q: real)
    requires p >= 0.0 && q >= 0.0
    ensures p > q <==> Square(p) > Square(q)
  {
    DifferenceOfSquares(p, q);
    DifferenceOfSquares(q, p);
  }

  /** The square root of c * m, for m > c > 0, exceeds c. */
  lemma RootAbove(root: real, c: real, m: real)
    requires root >= 0.0 && c > 0.0 && m > c
    requires Square(root) == Product(c, m)
    ensures root > c
  {
    CompareScaled(m, c, c);
    assert Square(c) == c * c;
    assert Product(c, m) == c * m;
    assert Square(root) > Square(c);
    SquareComparison(root, c);
  }
}
