/** Glass-transition temperature laws: Tg in degrees Celsius as a function of
    the cure fraction phi (DiBenedetto, Venditti-Gillham) and, for the
    Dykeman law, of the processing temperature as well. */
module TgModels {
  import opened Elementary

  /** The rational term shared by the DiBenedetto-type laws:
      lam * phi / (1 - (1 - lam) * phi). */
  function CureWeight(phi: real, lam: real): real
    requires 1.0 - (1.0 - lam) * phi != 0.0
  {
    lam * phi / (1.0 - (1.0 - lam) * phi)
  }

  /** DiBenedetto: Tg_0 + (Tg_1 - Tg_0) * lam * phi / (1 - (1 - lam) * phi).
      The only hazard is a zero denominator. */
  function DiBenedetto(phi: real, tg0: real, tg1: real, lam: real): (tg: real)
    requires 1.0 - (1.0 - lam) * phi != 0.0
    ensures phi == 0.0 ==> tg == tg0
    ensures phi == 1.0 && lam != 0.0 ==> tg == tg1
    ensures tg == tg0 + (tg1 - tg0) * CureWeight(phi, lam)
  {
    tg0 + (tg1 - tg0) * (lam * phi) / (1.0 - (1.0 - lam) * phi)
  }

  /** For lam in (0, 1] and phi in [0, 1] the denominator is at least lam,
      so the law is defined on the whole physical range. */
  lemma DenominatorAtLeastLam(phi: real, lam: real)
    requires 0.0 < lam <= 1.0 && 0.0 <= phi <= 1.0
    ensures 1.0 - (1.0 - lam) * phi >= lam > 0.0
  {
    assert (1.0 - lam) * phi <= 1.0 - lam by {
      MulNonNegative(1.0 - lam, 1.0 - phi);
    }
  }

  lemma CureWeightBounds(phi: real, lam: real)
    requires 0.0 < lam <= 1.0 && 0.0 <= phi <= 1.0
    ensures 1.0 - (1.0 - lam) * phi > 0.0
    ensures 0.0 <= CureWeight(phi, lam) <= 1.0
  {
    DenominatorAtLeastLam(phi, lam);
    var d := 1.0 - (1.0 - lam) * phi;
    assert lam * phi <= d;
    MulNonNegative(lam, phi);
    DivNonNegative(lam * phi, d);
    DivAtMostOne(lam * phi, d);
  }

  lemma CureWeightMonotone(phi1: real, phi2: real, lam: real)
    requires 0.0 < lam <= 1.0 && 0.0 <= phi1 <= phi2 <= 1.0
    ensures 1.0 - (1.0 - lam) * phi1 > 0.0 && 1.0 - (1.0 - lam) * phi2 > 0.0
    ensures CureWeight(phi1, lam) <= CureWeight(phi2, lam)
  {
    DenominatorAtLeastLam(phi1, lam);
    DenominatorAtLeastLam(phi2, lam);
    var d1, d2 := 1.0 - (1.0 - lam) * phi1, 1.0 - (1.0 - lam) * phi2;
    QuotientDifference(lam * phi2, d2, lam * phi1, d1);
    assert lam * phi2 * d1 - lam * phi1 * d2 == lam * (phi2 - phi1);
    MulNonNegative(lam, phi2 - phi1);
    assert d2 * d1 > 0.0;
    DivNonNegative(lam * (phi2 - phi1), d2 * d1);
  }

  /** Tg rises with cure: DiBenedetto is non-decreasing in phi on [0, 1]
      whenever Tg_1 >= Tg_0 and lam is in (0, 1]. */
  lemma DiBenedettoMonotone(phi1: real, phi2: real, tg0: real, tg1: real, lam: real)
    requires tg0 <= tg1 && 0.0 < lam <= 1.0 && 0.0 <= phi1 <= phi2 <= 1.0
    ensures 1.0 - (1.0 - lam) * phi1 > 0.0 && 1.0 - (1.0 - lam) * phi2 > 0.0
    ensures DiBenedetto(phi1, tg0, tg1, lam) <= DiBenedetto(phi2, tg0, tg1, lam)
  {
    CureWeightMonotone(phi1, phi2, lam);
    MulNonNegative(tg1 - tg0, CureWeight(phi2, lam) - CureWeight(phi1, lam));
  }

  /** On the physical range DiBenedetto stays between the uncured and the
      fully cured glass-transition temperatures. */
  lemma DiBenedettoBounds(phi: real, tg0: real, tg1: real, lam: real)
    requires tg0 <= tg1 && 0.0 < lam <= 1.0 && 0.0 <= phi <= 1.0
    ensures 1.0 - (1.0 - lam) * phi > 0.0
    ensures tg0 <= DiBenedetto(phi, tg0, tg1, lam) <= tg1
  {
    CureWeightBounds(phi, lam);
    var w := CureWeight(phi, lam);
    MulNonNegative(tg1 - tg0, w);
    MulNonNegative(tg1 - tg0, 1.0 - w);
  }

  /** Venditti-Gillham: exp((ln Tg_1 - ln Tg_0) * lam xi / (1 - (1 - lam) xi)
      + ln Tg_0). The logarithms need positive end-point temperatures. */
  function VendittiGillham(t: Transcendentals, xi: real, tg0: real, tg1: real, lam: real): (tg: real)
    requires 1.0 - (1.0 - lam) * xi != 0.0
    requires tg0 > 0.0 && tg1 > 0.0
    ensures tg > 0.0
    ensures xi == 0.0 ==> tg == tg0
    ensures xi == 1.0 && lam != 0.0 ==> tg == tg1
  {
    CureWeightEnds(xi, lam);
    ExpLn(t, tg0);
    ExpLn(t, tg1);
    t.exp(LogTg(t, xi, tg0, tg1, lam))
  }

  /** The logarithm of the Venditti-Gillham temperature. */
  function LogTg(t: Transcendentals, xi: real, tg0: real, tg1: real, lam: real): real
    requires 1.0 - (1.0 - lam) * xi != 0.0
  {
    (t.ln(tg1) - t.ln(tg0)) * CureWeight(xi, lam) + t.ln(tg0)
  }

  /** The cure weight is 0 uncured and 1 fully cured (for lam != 0). */
  lemma CureWeightEnds(xi: real, lam: real)
    ensures xi == 0.0 ==> CureWeight(xi, lam) == 0.0
    ensures xi == 1.0 && lam != 0.0 ==> CureWeight(xi, lam) == 1.0
  {
    if xi == 0.0 {
      assert lam * xi == 0.0 && 1.0 - (1.0 - lam) * xi == 1.0;
    } else if xi == 1.0 && lam != 0.0 {
      assert 1.0 - (1.0 - lam) * xi == lam;
      DivCancel(lam, 1.0, lam * xi);
    }
  }

  /** Venditti-Gillham is DiBenedetto applied to the logarithms of the
      end-point temperatures. */
  lemma VendittiGillhamIsLogDiBenedetto(t: Transcendentals, xi: real, tg0: real, tg1: real, lam: real)
    requires 1.0 - (1.0 - lam) * xi != 0.0
    requires tg0 > 0.0 && tg1 > 0.0
    ensures VendittiGillham(t, xi, tg0, tg1, lam) == t.exp(DiBenedetto(xi, t.ln(tg0), t.ln(tg1), lam))
  {
    ExpCongruent(t, LogTg(t, xi, tg0, tg1, lam), DiBenedetto(xi, t.ln(tg0), t.ln(tg1), lam));
  }

  /** With Tg_0 <= Tg_1, Venditti-Gillham is non-decreasing on [0, 1] and
      stays between Tg_0 and Tg_1. */
  lemma VendittiGillhamMonotone(t: Transcendentals, xi1: real, xi2: real, tg0: real, tg1: real, lam: real)
    requires 0.0 < tg0 <= tg1 && 0.0 < lam <= 1.0 && 0.0 <= xi1 <= xi2 <= 1.0
    ensures 1.0 - (1.0 - lam) * xi1 > 0.0 && 1.0 - (1.0 - lam) * xi2 > 0.0
    ensures VendittiGillham(t, xi1, tg0, tg1, lam) <= VendittiGillham(t, xi2, tg0, tg1, lam)
  {
    LnMonotone(t, tg0, tg1);
    DiBenedettoMonotone(xi1, xi2, t.ln(tg0), t.ln(tg1), lam);
    VendittiGillhamIsLogDiBenedetto(t, xi1, tg0, tg1, lam);
    VendittiGillhamIsLogDiBenedetto(t, xi2, tg0, tg1, lam);
    ExpMonotone(t, DiBenedetto(xi1, t.ln(tg0), t.ln(tg1), lam), DiBenedetto(xi2, t.ln(tg0), t.ln(tg1), lam));
  }

  lemma VendittiGillhamBounds(t: Transcendentals, xi: real, tg0: real, tg1: real, lam: real)
    requires 0.0 < tg0 <= tg1 && 0.0 < lam <= 1.0 && 0.0 <= xi <= 1.0
    ensures 1.0 - (1.0 - lam) * xi > 0.0
    ensures tg0 <= VendittiGillham(t, xi, tg0, tg1, lam) <= tg1
  {
    var l0, l1 := t.ln(tg0), t.ln(tg1);
    LnMonotone(t, tg0, tg1);
    ExpLn(t, tg0);
    ExpLn(t, tg1);
    DiBenedettoBounds(xi, l0, l1, lam);
    VendittiGillhamIsLogDiBenedetto(t, xi, tg0, tg1, lam);
    ExpMonotone(t, l0, DiBenedetto(xi, l0, l1, lam));
    ExpMonotone(t, DiBenedetto(xi, l0, l1, lam), l1);
  }

  /** The constants of the Dykeman law: sigmoid height D, steepness F and
      the fixed heating ramp. */
  const SigmoidHeight: real := 35.0
  const SigmoidSteepness: real := 25.0
  const Ramp: real := 2.8

  /** The critical cure fraction: a linear function of the Kelvin
      temperature and the ramp, clamped to [0.675, 1.0]. */
  function PhiCrit(tC: real): (pc: real)
    ensures 0.675 <= pc <= 1.0
  {
    var tK := tC + 273.15;
    var raw := if Ramp / 60.0 < 0.0001 then 0.0025 * tK - 0.3329
               else 0.0025 * tK - 0.00017 * 60.0 / Ramp - 0.3329;
    Min(Max(raw, 0.675), 1.0)
  }

  /** With the fixed ramp 2.8 the first branch is never taken, and the
      clamped line is 0.0025 * T_C + 96973/280000. */
  lemma PhiCritLine(tC: real)
    ensures !(Ramp / 60.0 < 0.0001)
    ensures PhiCrit(tC) == Min(Max(0.0025 * tC + 96973.0 / 280000.0, 0.675), 1.0)
  {
  }

  /** The critical cure fraction never decreases with temperature; it is
      pinned at 0.675 up to about 131.47 C and at 1.0 from about 261.47 C. */
  lemma PhiCritMonotone(tC1: real, tC2: real)
    requires tC1 <= tC2
    ensures PhiCrit(tC1) <= PhiCrit(tC2)
  {
  }

  /** The clamp meets the line exactly at 92027/700 C (about 131.47 C) and
      at 183027/700 C (about 261.47 C). */
  lemma PhiCritSaturates(tC: real)
    ensures tC <= 92027.0 / 700.0 ==> PhiCrit(tC) == 0.675
    ensures tC >= 183027.0 / 700.0 ==> PhiCrit(tC) == 1.0
    ensures 92027.0 / 700.0 <= tC <= 183027.0 / 700.0 ==> PhiCrit(tC) == 0.0025 * tC + 96973.0 / 280000.0
  {
  }

  /** The sigmoid correction D / (1 + exp(-F (phi - phi_crit))) of the
      Dykeman law; it rises with phi and stays strictly between 0 and 35. */
  function CriticalSigmoid(t: Transcendentals, phi: real, tC: real): real {
    SigmoidHeight / (1.0 + t.exp(-SigmoidSteepness * (phi - PhiCrit(tC))))
  }

  lemma CriticalSigmoidMonotone(t: Transcendentals, phi1: real, phi2: real, tC: real)
    requires phi1 <= phi2
    ensures CriticalSigmoid(t, phi1, tC) <= CriticalSigmoid(t, phi2, tC)
  {
    var pc := PhiCrit(tC);
    var x1, x2 := -SigmoidSteepness * (phi1 - pc), -SigmoidSteepness * (phi2 - pc);
    ExpMonotone(t, x2, x1);
    QuotientAntitone(SigmoidHeight, 1.0 + t.exp(x2), 1.0 + t.exp(x1));
  }

  /** Dykeman: the DiBenedetto form plus the sigmoid
      D / (1 + exp(-F (phi - phi_crit))), computed in Kelvin and converted
      back. The sigmoid lies strictly between 0 and D, so the result lies
      strictly between DiBenedetto and DiBenedetto + 35. */
  function DykemanTg(t: Transcendentals, phi: real, tC: real, tg0: real, tg1: real, lam: real): (tg: real)
    requires 1.0 - (1.0 - lam) * phi != 0.0
    ensures DiBenedetto(phi, tg0, tg1, lam) < tg < DiBenedetto(phi, tg0, tg1, lam) + SigmoidHeight
  {
    var pc := PhiCrit(tC);
    var x := -SigmoidSteepness * (phi - pc);
    LogisticBounds(t, x);
    assert SigmoidHeight / (1.0 + t.exp(x)) == SigmoidHeight * (1.0 / (1.0 + t.exp(x)));
    assert (lam * phi * (tg1 - tg0)) / (1.0 - (1.0 - lam) * phi)
        == (tg1 - tg0) * (lam * phi) / (1.0 - (1.0 - lam) * phi);
    (((lam * phi * (tg1 - tg0)) / (1.0 - (1.0 - lam) * phi)) + tg0 + 273.15
      + (SigmoidHeight / (1.0 + t.exp(-SigmoidSteepness * (phi - pc))))) - 273.15
  }

  /** The Kelvin offsets cancel: Dykeman Tg is DiBenedetto plus the sigmoid. */
  lemma DykemanTgDecomposition(t: Transcendentals, phi: real, tC: real, tg0: real, tg1: real, lam: real)
    requires 1.0 - (1.0 - lam) * phi != 0.0
    ensures DykemanTg(t, phi, tC, tg0, tg1, lam) == DiBenedetto(phi, tg0, tg1, lam) + CriticalSigmoid(t, phi, tC)
  {
    assert (lam * phi * (tg1 - tg0)) / (1.0 - (1.0 - lam) * phi)
        == (tg1 - tg0) * (lam * phi) / (1.0 - (1.0 - lam) * phi);
  }

  /** At the critical cure fraction the sigmoid is at half height. */
  lemma DykemanTgAtPhiCrit(t: Transcendentals, phi: real, tC: real, tg0: real, tg1: real, lam: real)
    requires 1.0 - (1.0 - lam) * phi != 0.0 && phi == PhiCrit(tC)
    ensures DykemanTg(t, phi, tC, tg0, tg1, lam) == DiBenedetto(phi, tg0, tg1, lam) + 17.5
  {
    DykemanTgDecomposition(t, phi, tC, tg0, tg1, lam);
    assert -SigmoidSteepness * (phi - PhiCrit(tC)) == 0.0;
  }

  /** Dykeman Tg rises with cure at a fixed temperature. */
  lemma DykemanTgMonotone(t: Transcendentals, phi1: real, phi2: real, tC: real, tg0: real, tg1: real, lam: real)
    requires tg0 <= tg1 && 0.0 < lam <= 1.0 && 0.0 <= phi1 <= phi2 <= 1.0
    ensures 1.0 - (1.0 - lam) * phi1 > 0.0 && 1.0 - (1.0 - lam) * phi2 > 0.0
    ensures DykemanTg(t, phi1, tC, tg0, tg1, lam) <= DykemanTg(t, phi2, tC, tg0, tg1, lam)
  {
    DiBenedettoMonotone(phi1, phi2, tg0, tg1, lam);
    DykemanTgDecomposition(t, phi1, tC, tg0, tg1, lam);
    DykemanTgDecomposition(t, phi2, tC, tg0, tg1, lam);
    CriticalSigmoidMonotone(t, phi1, phi2, tC);
  }

  /** With the fixture Tg_0 = 50, Tg_1 = 180, lam = 0.8 and T_C = 150,
      Dykeman Tg is positive over the whole range [0, 1] (the test sweeps
      [0.01, 0.99]). */
  lemma DykemanTgPositiveForFixture(t: Transcendentals, phi: real)
    requires 0.0 <= phi <= 1.0
    ensures 1.0 - (1.0 - 0.8) * phi != 0.0
    ensures DykemanTg(t, phi, 150.0, 50.0, 180.0, 0.8) > 0.0
  {
    DiBenedettoBounds(phi, 50.0, 180.0, 0.8);
  }
}
