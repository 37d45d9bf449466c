/** Coefficient-of-thermal-expansion laws in the cure state phi. Both are
    affine in phi and scaled by 1e-5. */
module CteModels {
  import opened Elementary

  /** The linear law (alpha phi + beta) * 1e-5: beta * 1e-5 uncured,
      (alpha + beta) * 1e-5 fully cured, and every step in phi changes it by
      alpha * 1e-5 per unit. */
  function CteModelLinear(phi: real, alpha: real, beta: real): (c: real)
    ensures phi == 0.0 ==> c == beta * 1e-5
    ensures phi == 1.0 ==> c == (alpha + beta) * 1e-5
  {
    (alpha * phi + beta) * 1e-5
  }

  /** Model A: (alpha - beta (phi - g)) * 1e-5 around the gelation cure g,
      with no branch on g. It equals alpha * 1e-5 at the gelation cure and is
      the linear law with slope -beta and intercept alpha + beta g. */
  function CteModelA(phi: real, gelation: real, alpha: real, beta: real): (c: real)
    ensures phi == gelation ==> c == alpha * 1e-5
    ensures c == CteModelLinear(phi, -beta, alpha + beta * gelation)
  {
    (alpha - beta * (phi - gelation)) * 1e-5
  }

  /** The change of the linear law between two cure states. */
  lemma CteModelLinearDifference(phi1: real, phi2: real, alpha: real, beta: real)
    ensures CteModelLinear(phi2, alpha, beta) - CteModelLinear(phi1, alpha, beta) == alpha * (phi2 - phi1) * 1e-5
  {
  }

  /** A non-negative slope makes the linear law non-decreasing in phi. */
  lemma CteModelLinearMonotone(phi1: real, phi2: real, alpha: real, beta: real)
    requires alpha >= 0.0 && phi1 <= phi2
    ensures CteModelLinear(phi1, alpha, beta) <= CteModelLinear(phi2, alpha, beta)
  {
    CteModelLinearDifference(phi1, phi2, alpha, beta);
    MulNonNegative(alpha, phi2 - phi1);
  }

  /** A non-negative beta makes Model A non-increasing in phi. */
  lemma CteModelAMonotone(phi1: real, phi2: real, gelation: real, alpha: real, beta: real)
    requires beta >= 0.0 && phi1 <= phi2
    ensures CteModelA(phi2, gelation, alpha, beta) <= CteModelA(phi1, gelation, alpha, beta)
  {
    var c1, c2 := CteModelA(phi1, gelation, alpha, beta), CteModelA(phi2, gelation, alpha, beta);
    assert c1 - c2 == beta * (phi2 - phi1) * 1e-5;
    MulNonNegative(beta, phi2 - phi1);
  }

  /** With gelation 0.45, alpha = 80 and beta = 70, Model A stays positive
      over the whole cure range. */
  lemma CteModelAPositiveOnCureRange(phi: real)
    requires 0.0 <= phi <= 1.0
    ensures CteModelA(phi, 0.45, 80.0, 70.0) > 0.0
  {
    CteModelAMonotone(phi, 1.0, 0.45, 80.0, 70.0);
  }

  /** With alpha = 90 and beta = 10 the linear law stays positive over the
      whole cure range. */
  lemma CteModelLinearPositiveOnCureRange(phi: real)
    requires 0.0 <= phi <= 1.0
    ensures CteModelLinear(phi, 90.0, 10.0) > 0.0
  {
    CteModelLinearMonotone(0.0, phi, 90.0, 10.0);
  }
}
