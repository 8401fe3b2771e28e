/** Small facts of ordered-field arithmetic that the algebraic proofs of the
    moist-air and process equations are assembled from. */
module RealAlgebra {
  import opened Numerics

  lemma MulCancel(p: real, q: real, k: real)
    requires k != 0.0 && p * k == q * k
    ensures p == q
  {
    assert (p - q) * k == 0.0;
  }

  lemma MulPositive(a: real, b: real)
    requires a > 0.0 && b > 0.0
    ensures a * b > 0.0
  {
  }

  lemma MulNonNegative(a: real, b: real)
    requires a >= 0.0 && b >= 0.0
    ensures a * b >= 0.0
  {
  }

  /** A product with a positive factor has the sign of the other factor. */
  lemma SignOfFactor(p: real, k: real)
    requires k > 0.0
    ensures p * k > 0.0 ==> p > 0.0
    ensures p * k >= 0.0 ==> p >= 0.0
  {
    if p < 0.0 { assert (-p) * k > 0.0; }
  }

  /** Multiplying by a positive factor preserves and reflects order. */
  lemma MulLeCancel(p: real, q: real, k: real)
    requires k > 0.0 && p * k <= q * k
    ensures p <= q
  {
    assert (q - p) * k >= 0.0;
    SignOfFactor(q - p, k);
  }

  lemma MulLeMonotone(p: real, q: real, k: real)
    requires k >= 0.0 && p <= q
    ensures p * k <= q * k
  {
    MulNonNegative(q - p, k);
  }

  /** Scaling a quantity within `tol` of zero by `k` keeps it within `|k| * tol`. */
  lemma AbsScale(k: real, d: real, tol: real)
    requires Abs(d) <= tol
    ensures Abs(k * d) <= Abs(k) * tol
  {
    if k < 0.0 {
      assert Abs(k * d) == (-k) * Abs(d);
    } else {
      assert Abs(k * d) == k * Abs(d);
    }
    MulLeMonotone(Abs(d), tol, Abs(k));
  }

  lemma AbsMul(a: real, b: real)
    ensures Abs(a * b) == Abs(a) * Abs(b)
  {
    if a < 0.0 {
      if b < 0.0 { assert a * b == (-a) * (-b); MulPositive(-a, -b); }
      else { assert a * b == -((-a) * b); MulNonNegative(-a, b); }
    } else {
      if b < 0.0 { assert a * b == -(a * (-b)); MulNonNegative(a, -b); }
      else { MulNonNegative(a, b); }
    }
  }

  /** `k * d <= k * tol` with `k > 0` gives `d <= tol`. */
  lemma Unscale(k: real, d: real, tol: real, v: real)
    requires k > 0.0 && v == k * d && v <= k * tol
    ensures d <= tol
  {
    assert d * k <= tol * k;
    MulLeCancel(d, tol, k);
  }
}
