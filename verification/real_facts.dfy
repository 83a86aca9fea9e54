/** Small facts of real arithmetic that the geometric proofs rely on. */
module RealFacts {

  /** Cancellation by a non-zero factor. */
  lemma Cancel(a: real, b: real, n: real)
    requires n != 0.0 && a * n == b * n
    ensures a == b
  {
  }

  /** Scaling a quotient: k·(u/d) is (k/d)·u. */
  lemma MulDivSwap(k: real, u: real, d: real)
    requires d != 0.0
    ensures k * (u / d) == (k / d) * u
  {
  }

  /** A quotient of a non-negative number by a larger one lies in [0, 1). */
  lemma QuotientBelowOne(k: real, d: real)
    requires 0.0 <= k < d
    ensures 0.0 <= k / d < 1.0
  {
  }
}
