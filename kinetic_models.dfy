/** Cure-kinetics laws: the Arrhenius rate constant and the cure rate
    phi_dot of the Prout-Thompkins, Kamal-Sourour and three-mechanism
    Dykeman laws. Temperatures are in degrees Celsius and are converted to
    Kelvin by adding 273.15 wherever an exponential needs them. */
module KineticModels {
  import opened Elementary

  /** The gas constant in kJ/(mol K). */
  const R: real := 0.008314

  /** A * exp(-Ea / (R * T_K)) with T_K = T_C + 273.15. A zero Kelvin
      temperature is a division by zero in the source. */
  function Arrhenius(t: Transcendentals, a: real, ea: real, tC: real): (k: real)
    requires tC + 273.15 != 0.0
    ensures a > 0.0 ==> k > 0.0
    ensures a == 0.0 ==> k == 0.0
    ensures a < 0.0 ==> k < 0.0
  {
    a * t.exp(ArrheniusExponent(ea, tC))
  }

  /** The exponent -Ea / (R * T_K) of the rate constant. */
  function ArrheniusExponent(ea: real, tC: real): real
    requires tC + 273.15 != 0.0
  {
    -ea / (R * (tC + 273.15))
  }

  /** The rate constant never exceeds its pre-exponential factor when the
      activation energy is non-negative and the Kelvin temperature positive. */
  lemma ArrheniusAtMostPreExponential(t: Transcendentals, a: real, ea: real, tC: real)
    requires a >= 0.0 && ea >= 0.0 && tC + 273.15 > 0.0
    ensures Arrhenius(t, a, ea, tC) <= a
  {
    var x := ArrheniusExponent(ea, tC);
    assert x <= 0.0 by { DivNonNegative(ea, R * (tC + 273.15)); }
    ExpMonotone(t, x, 0.0);
    MulAtMost(a, t.exp(x), Arrhenius(t, a, ea, tC));
  }

  /** With a positive activation energy the rate constant strictly rises
      with temperature above absolute zero. */
  lemma ArrheniusIncreasing(t: Transcendentals, a: real, ea: real, tC1: real, tC2: real)
    requires a > 0.0 && ea > 0.0 && -273.15 < tC1 < tC2
    ensures Arrhenius(t, a, ea, tC1) < Arrhenius(t, a, ea, tC2)
  {
    ArrheniusExponentIncreasing(ea, tC1, tC2);
    ScaledExpIncreasing(t, a, ArrheniusExponent(ea, tC1), ArrheniusExponent(ea, tC2));
  }

  /** a exp(x) strictly rises with x for a positive a. */
  lemma ScaledExpIncreasing(t: Transcendentals, a: real, x1: real, x2: real)
    requires a > 0.0 && x1 < x2
    ensures a * t.exp(x1) < a * t.exp(x2)
  {
    ExpStrictlyIncreasing(t, x1, x2);
    MulStrictlyIncreasing(a, t.exp(x1), t.exp(x2), a * t.exp(x1), a * t.exp(x2));
  }

  /** The exponent rises with the temperature for a positive activation
      energy. */
  lemma ArrheniusExponentIncreasing(ea: real, tC1: real, tC2: real)
    requires ea > 0.0 && -273.15 < tC1 < tC2
    ensures ArrheniusExponent(ea, tC1) < ArrheniusExponent(ea, tC2)
  {
    MulPositive(R, tC1 + 273.15);
    MulStrictlyIncreasing(R, tC1 + 273.15, tC2 + 273.15, R * (tC1 + 273.15), R * (tC2 + 273.15));
    ExponentIncreasing(ea, R * (tC1 + 273.15), R * (tC2 + 273.15));
  }

  /** -ea / d rises with d for a positive ea and positive d. */
  lemma ExponentIncreasing(ea: real, d1: real, d2: real)
    requires ea > 0.0 && 0.0 < d1 < d2
    ensures -ea / d1 < -ea / d2
  {
    QuotientDifference(-ea, d2, -ea, d1);
    assert -ea * d1 - -ea * d2 == ea * (d2 - d1);
    assert ea * (d2 - d1) > 0.0;
    assert d2 * d1 > 0.0;
  }

  /** Prout-Thompkins: k(T) * phi^m * (1 - phi)^n. */
  function ProutThompkins(t: Transcendentals, phi: real, tC: real, a: real, ea: real, m: real, n: real): (rate: real)
    requires tC + 273.15 != 0.0
    ensures phi == 1.0 && n > 0.0 ==> rate == 0.0
    ensures phi == 0.0 && m > 0.0 ==> rate == 0.0
    ensures 0.0 < phi < 1.0 && a > 0.0 ==> rate > 0.0
    ensures 0.0 <= phi <= 1.0 && a >= 0.0 ==> rate >= 0.0
  {
    var k := Arrhenius(t, a, ea, tC);
    RateProductSigns(k, t.pow(phi, m), t.pow(1.0 - phi, n), k * t.pow(phi, m) * t.pow(1.0 - phi, n));
    k * t.pow(phi, m) * t.pow(1.0 - phi, n)
  }

  /** Kamal-Sourour: (k1(T) + k2(T) * phi^m) * (1 - phi)^n, an uncatalysed
      and an autocatalysed path under one saturation term. */
  function KamalSourour(t: Transcendentals, phi: real, tC: real, a1: real, a2: real, ea1: real, ea2: real, m: real, n: real): (rate: real)
    requires tC + 273.15 != 0.0
    ensures phi == 1.0 && n > 0.0 ==> rate == 0.0
    ensures phi == 0.0 && m > 0.0 ==> rate == Arrhenius(t, a1, ea1, tC)
    ensures 0.0 < phi < 1.0 && a1 > 0.0 && a2 > 0.0 ==> rate > 0.0
    ensures 0.0 <= phi <= 1.0 && a1 >= 0.0 && a2 >= 0.0 ==> rate >= 0.0
  {
    var k1 := Arrhenius(t, a1, ea1, tC);
    var k2 := Arrhenius(t, a2, ea2, tC);
    SaturatedSumSigns(k1, k2, t.pow(phi, m), t.pow(1.0 - phi, n), (k1 + k2 * t.pow(phi, m)) * t.pow(1.0 - phi, n));
    (k1 + k2 * t.pow(phi, m)) * t.pow(1.0 - phi, n)
  }

  /** Signs of a rate k * p * q: zero when a factor is, non-negative when
      all factors are, positive when all are. */
  lemma RateProductSigns(k: real, p: real, q: real, r: real)
    requires r == k * p * q
    ensures p == 0.0 || q == 0.0 ==> r == 0.0
    ensures k >= 0.0 && p >= 0.0 && q >= 0.0 ==> r >= 0.0
    ensures k > 0.0 && p > 0.0 && q > 0.0 ==> r > 0.0
  {
    MulSigns(k, p, k * p);
    MulSigns(k * p, q, r);
  }

  /** Signs of a rate (k1 + k2 p) * q. */
  lemma SaturatedSumSigns(k1: real, k2: real, p: real, q: real, r: real)
    requires r == (k1 + k2 * p) * q
    ensures q == 0.0 ==> r == 0.0
    ensures p == 0.0 && q == 1.0 ==> r == k1
    ensures k1 >= 0.0 && k2 >= 0.0 && p >= 0.0 && q >= 0.0 ==> r >= 0.0
    ensures k1 > 0.0 && k2 >= 0.0 && p >= 0.0 && q > 0.0 ==> r > 0.0
  {
    MulSigns(k2, p, k2 * p);
    MulSigns(k1 + k2 * p, q, r);
  }

  /** Without the uncatalysed path, Kamal-Sourour is Prout-Thompkins with
      the autocatalysed constants. */
  lemma KamalSourourWithoutUncatalysedPath(t: Transcendentals, phi: real, tC: real, a2: real, ea1: real, ea2: real, m: real, n: real)
    requires tC + 273.15 != 0.0
    ensures KamalSourour(t, phi, tC, 0.0, a2, ea1, ea2, m, n) == ProutThompkins(t, phi, tC, a2, ea2, m, n)
  {
  }

  /** The chemical pre-exponential factor Ac1 and activation energy Ec1 of
      mechanism 1, by regime. Below 124 C and below 3.5 % cure the factor is
      34378 ln(phi) + 229563 floored at 50000. At phi = 0 NumPy's logarithm is
      -inf and the floor gives 50000; a negative phi there gives NaN, so phi
      must be non-negative in that regime. */
  function Mechanism1Constants(t: Transcendentals, phi: real, tC: real): (c: (real, real))
    requires tC < 124.0 && phi < 0.035 ==> phi >= 0.0
    ensures (tC >= 124.0) == (c == (14240.0, 66.435))
    ensures tC < 124.0 ==> c.1 == 73.300
    ensures tC < 124.0 && phi >= 0.035 ==> c.0 == 113881.0
    ensures tC < 124.0 && phi == 0.0 ==> c.0 == 50000.0
    ensures tC < 124.0 && 0.0 < phi < 0.035 ==> c.0 >= 50000.0 && c.0 >= 34378.0 * t.ln(phi) + 229563.0
    ensures tC < 124.0 && 0.0 < phi < 0.035 ==> (c.0 == 50000.0 <==> 34378.0 * t.ln(phi) + 229563.0 <= 50000.0)
    ensures tC < 124.0 && 0.0 < phi < 0.035 ==> c.0 == 50000.0 || c.0 == 34378.0 * t.ln(phi) + 229563.0
    ensures c.0 >= 14240.0
  {
    if tC < 124.0 && phi < 0.035 then
      var ac1 := if phi == 0.0 then 50000.0 else Max(34378.0 * t.ln(phi) + 229563.0, 50000.0);
      (ac1, 73.300)
    else if tC < 124.0 && phi >= 0.035 then
      (113881.0, 73.300)
    else
      (14240.0, 66.435)
  }

  /** The free volume af * (T_C - Tg) + fg with af = 8e-5 and fg = 0.025; it
      vanishes exactly 312.5 degrees below Tg. */
  function FreeVolume(tC: real, tg: real): (fv: real)
    ensures fv > 0.0 <==> tC - tg > -312.5
    ensures fv == 0.0 <==> tC - tg == -312.5
  {
    8e-5 * (tC - tg) + 0.025
  }

  /** The diffusion-controlled rates (Kd12, Kd3). More than 323.15 degrees
      below Tg both are the floor 1e-99 and the free volume is not used;
      otherwise Kd12 = k(4e12, 60, T) - 0.5268 / fv and
      Kd3 = 1.5e9 exp(-0.0147 / fv). */
  function DiffusionRates(t: Transcendentals, tC: real, tg: real): (kd: (real, real))
    requires tC - tg < -323.15 || (tC + 273.15 != 0.0 && FreeVolume(tC, tg) != 0.0)
    ensures tC - tg < -323.15 ==> kd == (1e-99, 1e-99)
    ensures kd.1 > 0.0
    ensures tC - tg >= -323.15 && FreeVolume(tC, tg) > 0.0
         ==> kd.0 < Arrhenius(t, 4e12, 60.0, tC) && kd.1 < 1.5e9
    ensures tC - tg >= -323.15 && FreeVolume(tC, tg) < 0.0
         ==> kd.0 > Arrhenius(t, 4e12, 60.0, tC) && kd.1 > 1.5e9
  {
    var fv := FreeVolume(tC, tg);
    if tC - tg < -323.15 then
      (1e-99, 1e-99)
    else
      assert fv > 0.0 ==> -0.5268 / fv < 0.0 && -0.0147 / fv < 0.0;
      assert fv < 0.0 ==> -0.5268 / fv > 0.0 && -0.0147 / fv > 0.0;
      ExpAgainstOne(t, -0.0147 / fv);
      (Arrhenius(t, 4e12, 60.0, tC) + (-0.5268 / fv), 1.5e9 * t.exp(-0.0147 / fv))
  }

  /** The floor applies only from 323.15 degrees below Tg, while the free
      volume already changes sign 312.5 degrees below Tg: in between, for
      instance at T_C - Tg = -320, the free volume is negative and both
      diffusion rates exceed their rubbery-state bounds instead of vanishing. */
  lemma NegativeFreeVolumeWindow(t: Transcendentals, tg: real)
    requires tg - 320.0 + 273.15 != 0.0
    ensures FreeVolume(tg - 320.0, tg) < 0.0
    ensures DiffusionRates(t, tg - 320.0, tg).1 > 1.5e9
    ensures DiffusionRates(t, tg - 320.0, tg).0 > Arrhenius(t, 4e12, 60.0, tg - 320.0)
  {
  }

  /** Series combination kc kd / (kc + kd) of a chemical and a diffusion
      rate: for positive rates it is the rate whose reciprocal is the sum of
      the reciprocals, so it is positive and below both. */
  function SeriesRate(kc: real, kd: real): (ke: real)
    requires kc + kd != 0.0
    ensures kc > 0.0 && kd > 0.0 ==> 0.0 < ke < kc && ke < kd
    ensures kc > 0.0 && kd > 0.0 ==> 1.0 / ke == 1.0 / kc + 1.0 / kd
  {
    SeriesRateBounds(kc, kd);
    (kc * kd) / (kc + kd)
  }

  lemma SeriesRateBounds(kc: real, kd: real)
    ensures kc > 0.0 && kd > 0.0 ==> 0.0 < (kc * kd) / (kc + kd) < kc && (kc * kd) / (kc + kd) < kd
    ensures kc > 0.0 && kd > 0.0 ==> 1.0 / ((kc * kd) / (kc + kd)) == 1.0 / kc + 1.0 / kd
  {
    if kc > 0.0 && kd > 0.0 {
      SeriesRatePositive(kc, kd);
    }
  }

  lemma SeriesRatePositive(kc: real, kd: real)
    requires kc > 0.0 && kd > 0.0
    ensures 0.0 < (kc * kd) / (kc + kd) < kc
    ensures (kc * kd) / (kc + kd) < kd
    ensures 1.0 / ((kc * kd) / (kc + kd)) == 1.0 / kc + 1.0 / kd
  {
    var s, p := kc + kd, kc * kd;
    MulPositive(kc, kd);
    QuotientBelowFactor(kc, kd, s, p, p / s);
    QuotientBelowFactor(kd, kc, s, p, p / s);
    ReciprocalOfQuotient(p, s);
    ReciprocalSum(kc, kd);
  }

  /** q = a b / (a + b) lies strictly between 0 and a for positive a and b. */
  lemma QuotientBelowFactor(a: real, b: real, s: real, p: real, q: real)
    requires a > 0.0 && b > 0.0 && s == a + b && p == a * b && p > 0.0 && q == p / s
    ensures 0.0 < q < a
  {
    assert s * q == p;
    MulSigns(s, q, p);
    MulPositive(a, a);
    assert s * (a - q) == a * a;
    MulSigns(s, a - q, a * a);
  }

  /** 1 / (p / s) == s / p for non-zero p and s. */
  lemma ReciprocalOfQuotient(p: real, s: real)
    requires p != 0.0 && s != 0.0
    ensures 1.0 / (p / s) == s / p
  {
    var q := p / s;
    assert q * s == p;
    assert q != 0.0;
    assert (s / p) * q == 1.0;
  }

  /** 1 / a + 1 / b == (a + b) / (a b) for non-zero a and b. */
  lemma ReciprocalSum(a: real, b: real)
    requires a != 0.0 && b != 0.0
    ensures 1.0 / a + 1.0 / b == (a + b) / (a * b)
  {
    QuotientDifference(1.0, a, -1.0, b);
  }

  /** With rates of opposite signs the series combination leaves the range
      between them: for Kc > 0 > Kd it lies below both when Kc + Kd > 0,
      and above both when Kc + Kd < 0. */
  lemma SeriesRateOppositeSigns(kc: real, kd: real)
    requires kc > 0.0 > kd && kc + kd != 0.0
    ensures kc + kd > 0.0 ==> SeriesRate(kc, kd) < kd
    ensures kc + kd < 0.0 ==> SeriesRate(kc, kd) > kc
  {
    var s, q := kc + kd, SeriesRate(kc, kd);
    assert s * q == kc * kd;
    assert s * (q - kd) == -(kd * kd);
    assert s * (q - kc) == -(kc * kc);
    MulPositive(-kd, -kd);
    MulPositive(kc, kc);
    MulSigns(s, q - kd, -(kd * kd));
    MulSigns(s, q - kc, -(kc * kc));
  }

  /** The chemically controlled rates (Kc1, Kc2, Kc3); mechanisms 2 and 3 use
      fixed constants (473684, 73.063) and (1.5e9, 115.624). */
  function ChemicalRates(t: Transcendentals, phi: real, tC: real): (kc: (real, real, real))
    requires tC + 273.15 != 0.0
    requires tC < 124.0 && phi < 0.035 ==> phi >= 0.0
    ensures kc.0 > 0.0 && kc.1 > 0.0 && kc.2 > 0.0
    ensures kc.0 == Arrhenius(t, Mechanism1Constants(t, phi, tC).0, Mechanism1Constants(t, phi, tC).1, tC)
  {
    var c1 := Mechanism1Constants(t, phi, tC);
    (Arrhenius(t, c1.0, c1.1, tC), Arrhenius(t, 473684.0, 73.063, tC), Arrhenius(t, 1.5e9, 115.624, tC))
  }

  /** The inputs on which the Dykeman cure rate is defined: a non-zero Kelvin
      temperature, a non-negative phi where its logarithm is taken, a non-zero
      free volume where it divides, and non-zero sums in the three series
      combinations. */
  predicate DykemanCureDefined(t: Transcendentals, phi: real, tC: real, tg: real) {
    && tC + 273.15 != 0.0
    && (tC < 124.0 && phi < 0.035 ==> phi >= 0.0)
    && (tC - tg < -323.15 || FreeVolume(tC, tg) != 0.0)
    && (var kc := ChemicalRates(t, phi, tC);
        var kd := DiffusionRates(t, tC, tg);
        kc.0 + kd.0 != 0.0 && kc.1 + kd.0 != 0.0 && kc.2 + kd.1 != 0.0)
  }

  /** The effective rates (Ke1, Ke2, Ke3) of the three mechanisms. */
  function EffectiveRates(t: Transcendentals, phi: real, tC: real, tg: real): (ke: (real, real, real))
    requires DykemanCureDefined(t, phi, tC, tg)
    ensures DiffusionRates(t, tC, tg).0 > 0.0 ==> ke.0 > 0.0 && ke.1 > 0.0
    ensures ke.2 > 0.0
    ensures tC - tg < -323.15 ==> ke.0 > 0.0 && ke.1 > 0.0
  {
    var kc := ChemicalRates(t, phi, tC);
    var kd := DiffusionRates(t, tC, tg);
    (SeriesRate(kc.0, kd.0), SeriesRate(kc.1, kd.0), SeriesRate(kc.2, kd.1))
  }

  /** The sum over three mechanisms of Ke_i phi^m_i (1 - phi)^n_i with
      (m, n) = (0, 1), (1, 2.5), (2.91, 0.83). For non-negative rates it is
      non-negative on [0, 1], and positive inside (0, 1) once Ke1 is. */
  function MechanismSum(t: Transcendentals, phi: real, ke: (real, real, real)): (rate: real)
    ensures 0.0 <= phi <= 1.0 && ke.0 >= 0.0 && ke.1 >= 0.0 && ke.2 >= 0.0 ==> rate >= 0.0
    ensures 0.0 < phi < 1.0 && ke.0 > 0.0 && ke.1 >= 0.0 && ke.2 >= 0.0 ==> rate > 0.0
  {
    var r1 := ke.0 * t.pow(phi, 0.0) * t.pow(1.0 - phi, 1.0);
    var r2 := ke.1 * t.pow(phi, 1.0) * t.pow(1.0 - phi, 2.5);
    var r3 := ke.2 * t.pow(phi, 2.91) * t.pow(1.0 - phi, 0.83);
    assert 0.0 <= phi <= 1.0 && ke.0 >= 0.0 && ke.1 >= 0.0 && ke.2 >= 0.0
      ==> r1 >= 0.0 && r2 >= 0.0 && r3 >= 0.0 && (phi < 1.0 && ke.0 > 0.0 ==> r1 > 0.0) by {
      if 0.0 <= phi <= 1.0 && ke.0 >= 0.0 && ke.1 >= 0.0 && ke.2 >= 0.0 {
        MechanismTermsSigns(t, phi, ke.0, ke.1, ke.2, r1, r2, r3);
      }
    }
    r1 + r2 + r3
  }

  /** Each mechanism term is non-negative on [0, 1] when the effective
      rates are, and the first is positive below full cure once Ke1 is. */
  lemma MechanismTermsSigns(t: Transcendentals, phi: real, ke1: real, ke2: real, ke3: real, r1: real, r2: real, r3: real)
    requires r1 == ke1 * t.pow(phi, 0.0) * t.pow(1.0 - phi, 1.0)
    requires r2 == ke2 * t.pow(phi, 1.0) * t.pow(1.0 - phi, 2.5)
    requires r3 == ke3 * t.pow(phi, 2.91) * t.pow(1.0 - phi, 0.83)
    requires 0.0 <= phi <= 1.0 && ke1 >= 0.0 && ke2 >= 0.0 && ke3 >= 0.0
    ensures r1 >= 0.0 && r2 >= 0.0 && r3 >= 0.0
    ensures phi < 1.0 && ke1 > 0.0 ==> r1 > 0.0
  {
    var p2, q2 := t.pow(1.0 - phi, 2.5), t.pow(phi, 2.91);
    var q3 := t.pow(1.0 - phi, 0.83);
    assert r1 == ke1 * (1.0 - phi);
    MulNonNegative(ke1, 1.0 - phi);
    assert r2 == (ke2 * phi) * p2;
    MulNonNegative(ke2, phi);
    MulNonNegative(ke2 * phi, p2);
    assert r3 == (ke3 * q2) * q3;
    MulNonNegative(ke3, q2);
    MulNonNegative(ke3 * q2, q3);
    if phi < 1.0 && ke1 > 0.0 {
      MulPositive(ke1, 1.0 - phi);
    }
  }

  /** With phi^0 = 1 and x^1 = x the mechanism sum is
      Ke1 (1 - phi) + Ke2 phi (1 - phi)^2.5 + Ke3 phi^2.91 (1 - phi)^0.83. */
  lemma MechanismSumTerms(t: Transcendentals, phi: real, ke: (real, real, real))
    ensures MechanismSum(t, phi, ke)
      == ke.0 * (1.0 - phi) + ke.1 * phi * t.pow(1.0 - phi, 2.5) + ke.2 * t.pow(phi, 2.91) * t.pow(1.0 - phi, 0.83)
  {
    assert t.pow(phi, 0.0) == 1.0 && t.pow(1.0 - phi, 1.0) == 1.0 - phi && t.pow(phi, 1.0) == phi;
  }

  /** Dykeman: the mechanism sum of the effective rates. On [0, 1] it is
      non-negative whenever Kd12 is positive, in particular deep in the
      glassy state where the diffusion floor applies. */
  function DykemanCure(t: Transcendentals, phi: real, tC: real, tg: real): (rate: real)
    requires DykemanCureDefined(t, phi, tC, tg)
    ensures 0.0 <= phi <= 1.0 && (tC - tg < -323.15 || DiffusionRates(t, tC, tg).0 > 0.0) ==> rate >= 0.0
    ensures 0.0 < phi < 1.0 && (tC - tg < -323.15 || DiffusionRates(t, tC, tg).0 > 0.0) ==> rate > 0.0
  {
    MechanismSum(t, phi, EffectiveRates(t, phi, tC, tg))
  }

  /** A fully cured material does not react, whatever the temperature. */
  lemma DykemanCureAtFullCure(t: Transcendentals, tC: real, tg: real)
    requires DykemanCureDefined(t, 1.0, tC, tg)
    ensures DykemanCure(t, 1.0, tC, tg) == 0.0
  {
    MechanismSumTerms(t, 1.0, EffectiveRates(t, 1.0, tC, tg));
  }

  /** An uncured material reacts only through mechanism 1. */
  lemma DykemanCureUncured(t: Transcendentals, tC: real, tg: real)
    requires DykemanCureDefined(t, 0.0, tC, tg)
    ensures DykemanCure(t, 0.0, tC, tg) == EffectiveRates(t, 0.0, tC, tg).0
  {
    MechanismSumTerms(t, 0.0, EffectiveRates(t, 0.0, tC, tg));
  }

  /** Where Kd12 is negative but smaller in magnitude than Kc1, the
      series combination Ke1 is negative, and so is the rate of an uncured
      material. */
  lemma DykemanCureNegativeUncured(t: Transcendentals, tC: real, tg: real)
    requires DykemanCureDefined(t, 0.0, tC, tg)
    requires -ChemicalRates(t, 0.0, tC).0 < DiffusionRates(t, tC, tg).0 < 0.0
    ensures DykemanCure(t, 0.0, tC, tg) < 0.0
  {
    DykemanCureUncured(t, tC, tg);
    SeriesRateOppositeSigns(ChemicalRates(t, 0.0, tC).0, DiffusionRates(t, tC, tg).0);
  }

  /** exp(-17) >= 2^-34, by halving from exp(-1/2) >= 1/2. */
  lemma ExpMinusSeventeen(t: Transcendentals)
    requires ExpAdditive(t)
    ensures t.exp(-17.0) >= 1.0 / 17179869184.0
  {
    ExpTangent(t, -0.5);
    ExpSumBound(t, -0.5, -0.5, 0.5, 0.5);
    ExpSumBound(t, -1.0, -1.0, 0.25, 0.25);
    ExpSumBound(t, -2.0, -2.0, 0.0625, 0.0625);
    ExpSumBound(t, -4.0, -4.0, 1.0 / 256.0, 1.0 / 256.0);
    ExpSumBound(t, -8.0, -8.0, 1.0 / 65536.0, 1.0 / 65536.0);
    ExpSumBound(t, -16.0, -1.0, 1.0 / 4294967296.0, 0.25);
  }

  /** The fixture T_C = 160, Tg = 140 of the cure-rate tests: the law is
      defined for every phi in [0, 1] and the rate is non-negative there
      (the tests probe 0.01, 0.05, 0.1 and 0.9). */
  lemma DykemanCureFixture(t: Transcendentals, phi: real)
    requires ExpAdditive(t) && 0.0 <= phi <= 1.0
    ensures DykemanCureDefined(t, phi, 160.0, 140.0)
    ensures DykemanCure(t, phi, 160.0, 140.0) >= 0.0
  {
    var x := ArrheniusExponent(60.0, 160.0);
    assert x >= -17.0;
    ExpMinusSeventeen(t);
    ExpMonotone(t, -17.0, x);
    var kd := DiffusionRates(t, 160.0, 140.0);
    assert FreeVolume(160.0, 140.0) == 0.0266;
    assert kd.0 == 4e12 * t.exp(x) + (-0.5268 / 0.0266);
    assert 4e12 * t.exp(x) >= 4e12 / 17179869184.0;
    assert kd.0 > 0.0;
  }
}
