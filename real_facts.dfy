/** Facts about exact real arithmetic used by the threshold and layout proofs. */
module RealFacts {

  /** Multiplying by a positive number keeps the sign. */
  lemma MulPositive(x: real, y: real)
    requires y > 0.0
    ensures x > 0.0 <==> x * y > 0.0
  {
  }
}
