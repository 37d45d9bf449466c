/** The specific-heat law (alpha T + beta) * 1e9 in the temperature T. */
module CpModels {

  /** cp = (alpha T + beta) * 1e9; beta * 1e9 at T = 0. */
  function CpModelLinear(temperature: real, alpha: real, beta: real): (cp: real)
    ensures temperature == 0.0 ==> cp == beta * 1e9
    ensures alpha >= 0.0 && beta > 0.0 && temperature >= 0.0 ==> cp > 0.0
  {
    assert alpha >= 0.0 && temperature >= 0.0 ==> alpha * temperature >= 0.0;
    (alpha * temperature + beta) * 1e9
  }

  /** The change of cp between two temperatures is alpha * (T2 - T1) * 1e9. */
  lemma CpModelLinearDifference(temp1: real, temp2: real, alpha: real, beta: real)
    ensures CpModelLinear(temp2, alpha, beta) - CpModelLinear(temp1, alpha, beta) == alpha * (temp2 - temp1) * 1e9
  {
  }

  /** cp is non-decreasing for alpha >= 0 and strictly increasing for
      alpha > 0. */
  lemma CpModelLinearMonotone(temp1: real, temp2: real, alpha: real, beta: real)
    requires temp1 <= temp2
    ensures alpha >= 0.0 ==> CpModelLinear(temp1, alpha, beta) <= CpModelLinear(temp2, alpha, beta)
    ensures alpha > 0.0 && temp1 < temp2 ==> CpModelLinear(temp1, alpha, beta) < CpModelLinear(temp2, alpha, beta)
  {
    CpModelLinearDifference(temp1, temp2, alpha, beta);
    assert alpha >= 0.0 ==> alpha * (temp2 - temp1) >= 0.0;
    assert alpha > 0.0 && temp1 < temp2 ==> alpha * (temp2 - temp1) > 0.0;
  }

  /** With alpha = 1.2e-3 and beta = 0.2, cp is positive on [20, 500]. */
  lemma CpModelLinearPositiveOnRange(temperature: real)
    requires 20.0 <= temperature <= 500.0
    ensures CpModelLinear(temperature, 1.2e-3, 0.2) > 0.0
  {
  }

  /** cp over a sweep of temperatures, one value per temperature. */
  function CpProfile(temperatures: seq<real>, alpha: real, beta: real): (cps: seq<real>)
    ensures |cps| == |temperatures|
    ensures forall i :: 0 <= i < |temperatures| ==> cps[i] == CpModelLinear(temperatures[i], alpha, beta)
  {
    if |temperatures| == 0 then []
    else [CpModelLinear(temperatures[0], alpha, beta)] + CpProfile(temperatures[1..], alpha, beta)
  }

  predicate NonDecreasing(xs: seq<real>) {
    forall i :: 0 <= i < |xs| - 1 ==> xs[i] <= xs[i + 1]
  }

  /** For alpha >= 0, cp over an ascending temperature sweep has no negative
      step, as with alpha = 1.5e-3 and beta = 0.1 on [0, 1000]. */
  lemma CpProfileNonDecreasing(temperatures: seq<real>, alpha: real, beta: real)
    requires alpha >= 0.0 && NonDecreasing(temperatures)
    ensures NonDecreasing(CpProfile(temperatures, alpha, beta))
  {
    var cps := CpProfile(temperatures, alpha, beta);
    forall i | 0 <= i < |cps| - 1
      ensures cps[i] <= cps[i + 1]
    {
      CpModelLinearMonotone(temperatures[i], temperatures[i + 1], alpha, beta);
    }
  }
}
