/** Two facts about multiplying reals, stated as lemmas so that the larger
    nonlinear proofs can call them with the terms they need. */
module RealArith {

  lemma MulPos(a: real, b: real)
    requires a > 0.0 && b > 0.0
    ensures a * b > 0.0
  {
  }

  /** Multiplying by a positive factor preserves strict order, both ways. */
  lemma ScaleStrict(p: real, a: real, b: real)
    requires p > 0.0
    ensures a < b <==> p * a < p * b
  {
    if a < b {
      MulPos(p, b - a);
    } else if b < a {
      MulPos(p, a - b);
    }
  }
}
