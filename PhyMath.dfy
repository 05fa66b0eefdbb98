/** The engine's tolerance constant and its tolerant comparison of scalars. */
module PhyMath {

  /** The tolerance used for "is (almost) zero" decisions throughout the engine. */
  const Epsilon: real := 0.00000001

  function Abs(x: real): (r: real)
    ensures r >= 0.0
    ensures r == x || r == -x
  {
    if x < 0.0 then -x else x
  }

  function Max(a: real, b: real): (r: real)
    ensures r >= a && r >= b
    ensures r == a || r == b
  {
    if a >= b then a else b
  }

  /** Two scalars are "epsilon equal" when they differ by strictly less than Epsilon. */
  predicate EpsilonEqual(a: real, b: real)
  {
    Abs(a - b) < Epsilon
  }

  lemma EpsilonPositive()
    ensures Epsilon > 0.0
  {
  }

  lemma EpsilonEqualReflexive(a: real)
    ensures EpsilonEqual(a, a)
  {
  }

  lemma EpsilonEqualSymmetric(a: real, b: real)
    ensures EpsilonEqual(a, b) <==> EpsilonEqual(b, a)
  {
  }

  /** The comparison is exactly the open interval of half-width Epsilon around b. */
  lemma EpsilonEqualIff(a: real, b: real)
    ensures EpsilonEqual(a, b) <==> b - Epsilon < a < b + Epsilon
  {
  }

  /** Two non-negative scalars whose sum is not epsilon-equal to zero have a sum of at least Epsilon. */
  lemma NonNegativeSumNotEpsilonZero(a: real, b: real)
    requires a >= 0.0 && b >= 0.0
    requires !EpsilonEqual(a + b, 0.0)
    ensures a + b >= Epsilon
  {
  }
}
