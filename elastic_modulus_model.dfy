/** Gel-point-gated elastic-modulus laws. Below the gel point both laws
    return the constant 1e-6. Above it, Model A blends two affine/exponential
    moduli with a sigmoid in the reduced temperature. Model B scales an
    interpolated modulus by three factors. Temperatures are in degrees
    Celsius. */
module ElasticModulusModels {
  import opened Elementary

  /** The modulus returned for every cure state below the gel point. */
  const PreGelModulus: real := 1e-6

  /** The reduced temperature 1 - (T + 273.15) / (T_ref + 273.15). It is zero
      at the reference temperature and, above absolute zero, non-negative
      exactly when T does not exceed the reference. */
  function ReducedTemperature(temperature: real, tRef: real): (eta: real)
    requires tRef + 273.15 != 0.0
    ensures temperature == tRef ==> eta == 0.0
    ensures tRef + 273.15 > 0.0 ==> (eta >= 0.0 <==> temperature <= tRef)
    ensures tRef + 273.15 > 0.0 ==> (eta > 0.0 <==> temperature < tRef)
  {
    RatioAgainstOne(temperature + 273.15, tRef + 273.15);
    1.0 - (temperature + 273.15) / (tRef + 273.15)
  }

  /** For a positive k, num / k is at most (below) 1 exactly when num is at
      most (below) k, and it is 1 when they agree. */
  lemma RatioAgainstOne(num: real, k: real)
    ensures k != 0.0 && num == k ==> num / k == 1.0
    ensures k > 0.0 ==> (num / k <= 1.0 <==> num <= k) && (num / k < 1.0 <==> num < k)
  {
    if k > 0.0 {
      var q := num / k;
      assert q * k == num;
      if q > 1.0 {
        MulStrictlyIncreasing(k, 1.0, q, k, num);
      } else if q < 1.0 {
        MulStrictlyIncreasing(k, q, 1.0, num, k);
      }
    }
  }

  /** The reduced temperature falls as the temperature rises. */
  lemma ReducedTemperatureAntitone(temp1: real, temp2: real, tRef: real)
    requires tRef + 273.15 > 0.0 && temp1 <= temp2
    ensures ReducedTemperature(temp2, tRef) <= ReducedTemperature(temp1, tRef)
  {
    var k := tRef + 273.15;
    assert (temp2 + 273.15) / k - (temp1 + 273.15) / k == (temp2 - temp1) / k;
    DivNonNegative(temp2 - temp1, k);
  }

  /** The reduced temperature of the temperature clamped to at most tMax. */
  function ClampedReducedTemperature(temperature: real, tMax: real, tRef: real): (eta: real)
    requires tRef + 273.15 != 0.0
    ensures temperature >= tMax ==> eta == ReducedTemperature(tMax, tRef)
    ensures temperature <= tMax ==> eta == ReducedTemperature(temperature, tRef)
  {
    ReducedTemperature(Min(temperature, tMax), tRef)
  }

  /** The clamped reduced temperature falls as the temperature rises. */
  lemma ClampedReducedTemperatureAntitone(temp1: real, temp2: real, tMax: real, tRef: real)
    requires tRef + 273.15 > 0.0 && temp1 <= temp2
    ensures ClampedReducedTemperature(temp2, tMax, tRef) <= ClampedReducedTemperature(temp1, tMax, tRef)
  {
    ReducedTemperatureAntitone(Min(temp1, tMax), Min(temp2, tMax), tRef);
  }

  /** A sigmoid blend lo + (hi - lo) / (1 + exp(x)) of two moduli: it tends
      to hi for very negative x and to lo for very positive x, and always
      lies strictly between them. */
  function SigmoidBlend(t: Transcendentals, lo: real, hi: real, x: real): (r: real)
    ensures lo < hi ==> lo < r < hi
    ensures hi < lo ==> hi < r < lo
    ensures lo == hi ==> r == lo
    ensures x == 0.0 ==> r == (lo + hi) / 2.0
    ensures lo > 0.0 && hi > 0.0 ==> r > 0.0
  {
    BlendBetween(lo, hi, 1.0 + t.exp(x), lo + (hi - lo) / (1.0 + t.exp(x)));
    lo + (hi - lo) / (1.0 + t.exp(x))
  }

  /** With hi >= lo the blend falls as x rises. */
  lemma SigmoidBlendAntitone(t: Transcendentals, lo: real, hi: real, x: real, y: real)
    requires lo <= hi && x <= y
    ensures SigmoidBlend(t, lo, hi, y) <= SigmoidBlend(t, lo, hi, x)
  {
    ExpMonotone(t, x, y);
    QuotientAntitone(hi - lo, 1.0 + t.exp(x), 1.0 + t.exp(y));
  }

  /** The blend lo + (hi - lo) / d with d > 1 lies strictly between lo and hi,
      and equals both when they agree. */
  lemma BlendBetween(lo: real, hi: real, d: real, r: real)
    requires d > 1.0 && r == lo + (hi - lo) / d
    ensures lo < hi ==> lo < r < hi
    ensures hi < lo ==> hi < r < lo
    ensures lo == hi ==> r == lo
  {
    var q := (hi - lo) / d;
    assert q * d == hi - lo;
    if lo < hi {
      if q >= hi - lo {
        MulStrictlyIncreasing(q, 1.0, d, q, q * d);
      }
    } else if hi < lo {
      if q <= hi - lo {
        MulStrictlyIncreasing(-q, 1.0, d, -q, -q * d);
      }
    }
  }

  /** The moduli Model A blends: A1 = A1_A exp(A1_B phi) and A2 = A2_A phi + A2_B. */
  function ModulusA1(t: Transcendentals, phi: real, a1A: real, a1B: real): real {
    a1A * t.exp(a1B * phi)
  }

  function ModulusA2(phi: real, a2A: real, a2B: real): real {
    a2A * phi + a2B
  }

  /** The argument (eta - eta_0) / deta of Model A's sigmoid, with eta the
      reduced temperature of min(T, T_ref). */
  function BlendArgument(temperature: real, tempRef: real, eta0: real, deta: real): real
    requires tempRef + 273.15 != 0.0 && deta != 0.0
  {
    (ClampedReducedTemperature(temperature, tempRef, tempRef) - eta0) / deta
  }

  /** Model A: above the gel point,
        A2 + (A1 - A2) / (1 + exp((eta - eta_0) / deta))
      with eta the reduced temperature of min(T, T_ref) and eta_0 and deta
      affine in phi. The comparison with the gel point is strict, so
      phi == gel_point takes the formula. The result lies between A2 and A1. */
  function ModulusModelA(t: Transcendentals, phi: real, temperature: real, gelPoint: real, tempRef: real,
                         eta0A: real, eta0B: real, deta0A: real, deta0B: real,
                         a1A: real, a1B: real, a2A: real, a2B: real): (e: real)
    requires phi >= gelPoint ==> tempRef + 273.15 != 0.0 && deta0A * phi + deta0B != 0.0
    ensures phi < gelPoint ==> e == PreGelModulus
    ensures phi >= gelPoint && ModulusA2(phi, a2A, a2B) < ModulusA1(t, phi, a1A, a1B)
            ==> ModulusA2(phi, a2A, a2B) < e < ModulusA1(t, phi, a1A, a1B)
    ensures phi >= gelPoint && ModulusA1(t, phi, a1A, a1B) < ModulusA2(phi, a2A, a2B)
            ==> ModulusA1(t, phi, a1A, a1B) < e < ModulusA2(phi, a2A, a2B)
    ensures phi >= gelPoint && ModulusA1(t, phi, a1A, a1B) == ModulusA2(phi, a2A, a2B)
            ==> e == ModulusA2(phi, a2A, a2B)
  {
    if phi < gelPoint then PreGelModulus
    else
      SigmoidBlend(t, ModulusA2(phi, a2A, a2B), ModulusA1(t, phi, a1A, a1B),
                   BlendArgument(temperature, tempRef, eta0A * phi + eta0B, deta0A * phi + deta0B))
  }

  /** Model A does not see temperatures above the reference: every such
      temperature gives the value at the reference. */
  lemma ModulusModelAClamp(t: Transcendentals, phi: real, temperature: real, gelPoint: real, tempRef: real,
                           eta0A: real, eta0B: real, deta0A: real, deta0B: real,
                           a1A: real, a1B: real, a2A: real, a2B: real)
    requires phi >= gelPoint ==> tempRef + 273.15 != 0.0 && deta0A * phi + deta0B != 0.0
    requires temperature >= tempRef
    ensures ModulusModelA(t, phi, temperature, gelPoint, tempRef, eta0A, eta0B, deta0A, deta0B, a1A, a1B, a2A, a2B)
         == ModulusModelA(t, phi, tempRef, gelPoint, tempRef, eta0A, eta0B, deta0A, deta0B, a1A, a1B, a2A, a2B)
  {
  }

  /** The clamped reduced temperature of Model A is never negative above
      absolute zero; it vanishes from the reference temperature upward. */
  lemma ModulusModelAReducedTemperature(temperature: real, tempRef: real)
    requires tempRef + 273.15 > 0.0
    ensures ClampedReducedTemperature(temperature, tempRef, tempRef) >= 0.0
    ensures temperature >= tempRef ==> ClampedReducedTemperature(temperature, tempRef, tempRef) == 0.0
  {
  }

  /** Where the reduced temperature meets eta_0 the sigmoid is at its
      midpoint and Model A returns the mean of A1 and A2. */
  lemma ModulusModelAMidpoint(t: Transcendentals, phi: real, temperature: real, gelPoint: real, tempRef: real,
                              eta0A: real, eta0B: real, deta0A: real, deta0B: real,
                              a1A: real, a1B: real, a2A: real, a2B: real)
    requires phi >= gelPoint && tempRef + 273.15 != 0.0 && deta0A * phi + deta0B != 0.0
    requires ClampedReducedTemperature(temperature, tempRef, tempRef) == eta0A * phi + eta0B
    ensures ModulusModelA(t, phi, temperature, gelPoint, tempRef, eta0A, eta0B, deta0A, deta0B, a1A, a1B, a2A, a2B)
         == (ModulusA1(t, phi, a1A, a1B) + ModulusA2(phi, a2A, a2B)) / 2.0
  {
    assert BlendArgument(temperature, tempRef, eta0A * phi + eta0B, deta0A * phi + deta0B) == 0.0;
  }

  /** When A1 >= A2 and the width deta is positive, Model A does not fall as
      the temperature rises: it moves from A2 toward A1 as the reduced
      temperature drops to zero. */
  lemma ModulusModelAWarming(t: Transcendentals, phi: real, temp1: real, temp2: real, gelPoint: real, tempRef: real,
                             eta0A: real, eta0B: real, deta0A: real, deta0B: real,
                             a1A: real, a1B: real, a2A: real, a2B: real)
    requires phi >= gelPoint && tempRef + 273.15 > 0.0 && deta0A * phi + deta0B > 0.0
    requires ModulusA1(t, phi, a1A, a1B) >= ModulusA2(phi, a2A, a2B) && temp1 <= temp2
    ensures ModulusModelA(t, phi, temp1, gelPoint, tempRef, eta0A, eta0B, deta0A, deta0B, a1A, a1B, a2A, a2B)
         <= ModulusModelA(t, phi, temp2, gelPoint, tempRef, eta0A, eta0B, deta0A, deta0B, a1A, a1B, a2A, a2B)
  {
    var eta0, deta := eta0A * phi + eta0B, deta0A * phi + deta0B;
    BlendArgumentAntitone(temp1, temp2, tempRef, eta0, deta);
    SigmoidBlendAntitone(t, ModulusA2(phi, a2A, a2B), ModulusA1(t, phi, a1A, a1B),
                         BlendArgument(temp2, tempRef, eta0, deta), BlendArgument(temp1, tempRef, eta0, deta));
  }

  /** The argument of the blend falls as the temperature rises, for a
      positive width. */
  lemma BlendArgumentAntitone(temp1: real, temp2: real, tempRef: real, eta0: real, deta: real)
    requires tempRef + 273.15 > 0.0 && deta > 0.0 && temp1 <= temp2
    ensures BlendArgument(temp2, tempRef, eta0, deta) <= BlendArgument(temp1, tempRef, eta0, deta)
  {
    ClampedReducedTemperatureAntitone(temp1, temp2, tempRef, tempRef);
    ShiftedQuotientMonotone(ClampedReducedTemperature(temp2, tempRef, tempRef),
                            ClampedReducedTemperature(temp1, tempRef, tempRef), eta0, deta);
  }

  /** (a - c) / d <= (b - c) / d for a <= b and d > 0. */
  lemma ShiftedQuotientMonotone(a: real, b: real, c: real, d: real)
    requires a <= b && d > 0.0
    ensures (a - c) / d <= (b - c) / d
  {
    assert (b - c) / d - (a - c) / d == (b - a) / d;
    DivNonNegative(b - a, d);
  }

  /** Model A is positive above the gel point whenever A1_A and A2 are. */
  lemma ModulusModelAPositive(t: Transcendentals, phi: real, temperature: real, gelPoint: real, tempRef: real,
                              eta0A: real, eta0B: real, deta0A: real, deta0B: real,
                              a1A: real, a1B: real, a2A: real, a2B: real)
    requires phi >= gelPoint ==> tempRef + 273.15 != 0.0 && deta0A * phi + deta0B != 0.0
    requires a1A > 0.0 && ModulusA2(phi, a2A, a2B) > 0.0
    ensures ModulusModelA(t, phi, temperature, gelPoint, tempRef, eta0A, eta0B, deta0A, deta0B, a1A, a1B, a2A, a2B) > 0.0
  {
    MulPositive(a1A, t.exp(a1B * phi));
    assert ModulusA1(t, phi, a1A, a1B) > 0.0;
  }

  /** The test point phi = 0.5, T = 100 with gel point 0.4, T_ref = 180 and
      constants (0.2, 0.1, 0.05, 0.02, 1000, 0.1, 10, 1) gives a positive
      modulus. */
  lemma ModulusModelAAtTestPoint(t: Transcendentals)
    ensures ModulusModelA(t, 0.5, 100.0, 0.4, 180.0, 0.2, 0.1, 0.05, 0.02, 1000.0, 0.1, 10.0, 1.0) > 0.0
  {
    ModulusModelAPositive(t, 0.5, 100.0, 0.4, 180.0, 0.2, 0.1, 0.05, 0.02, 1000.0, 0.1, 10.0, 1.0);
  }

  /** The complement 1 - 1 / (1 + exp(1 + x)) of a logistic factor, which both
      factors of Model B use; it lies strictly between 0 and 1 and rises with x. */
  function LogisticComplement(t: Transcendentals, x: real): (s: real)
    ensures 0.0 < s < 1.0
  {
    LogisticBounds(t, 1.0 + x);
    1.0 - 1.0 / (1.0 + t.exp(1.0 + x))
  }

  lemma LogisticComplementMonotone(t: Transcendentals, x: real, y: real)
    requires x <= y
    ensures LogisticComplement(t, x) <= LogisticComplement(t, y)
  {
    LogisticAntitone(t, 1.0 + x, 1.0 + y);
  }

  /** The cure factor f_phi of Model B: a logistic step of width dphi
      around phi_0, strictly between 0 and 1. */
  function CureFactor(t: Transcendentals, phi: real, phi0: real, dphi: real): (f: real)
    requires dphi != 0.0
    ensures 0.0 < f < 1.0
  {
    LogisticComplement(t, (phi - phi0) / dphi)
  }

  /** For a positive width the cure factor rises with the cure state. */
  lemma CureFactorMonotone(t: Transcendentals, phi1: real, phi2: real, phi0: real, dphi: real)
    requires dphi > 0.0 && phi1 <= phi2
    ensures CureFactor(t, phi1, phi0, dphi) <= CureFactor(t, phi2, phi0, dphi)
  {
    ShiftedQuotientMonotone(phi1, phi2, phi0, dphi);
    LogisticComplementMonotone(t, (phi1 - phi0) / dphi, (phi2 - phi0) / dphi);
  }

  /** The temperature factor f_eta of Model B: a logistic step in the
      reduced temperature scaled by eta_1; it has the sign of eta_1 and a
      smaller magnitude. */
  function TemperatureFactor(t: Transcendentals, eta: real, eta0: real, deta: real, eta1: real): (f: real)
    requires deta != 0.0
    ensures eta1 > 0.0 ==> 0.0 < f < eta1
    ensures eta1 == 0.0 ==> f == 0.0
    ensures eta1 < 0.0 ==> eta1 < f < 0.0
  {
    var s := LogisticComplement(t, (eta - eta0) / deta);
    FractionOf(s, eta1, s * eta1);
    s * eta1
  }

  /** A fraction s in (0, 1) of v keeps the sign of v and has a smaller
      magnitude. */
  lemma FractionOf(s: real, v: real, f: real)
    requires 0.0 < s < 1.0 && f == s * v
    ensures v > 0.0 ==> 0.0 < f < v
    ensures v == 0.0 ==> f == 0.0
    ensures v < 0.0 ==> v < f < 0.0
  {
    if v > 0.0 {
      MulPositive(s, v);
      MulStrictlyIncreasing(v, s, 1.0, f, v);
    } else if v < 0.0 {
      MulPositive(s, -v);
      MulStrictlyIncreasing(-v, s, 1.0, -f, -v);
    }
  }

  /** The pre-exponential factor f_A = A_1 ln(0.001 / 2.0e8) + A_2 of Model B.
      It depends on A_1 and A_2 alone, and since ln(5e-12) < 0 it lies below
      A_2 for a positive A_1; for a non-zero A_1 it recovers 5e-12 through
      exp. */
  function PreExponentialFactor(t: Transcendentals, a1: real, a2: real): (f: real)
    ensures a1 > 0.0 ==> f < a2
    ensures a1 < 0.0 ==> f > a2
    ensures a1 != 0.0 ==> t.exp((f - a2) / a1) == 0.001 / 2.0e8
  {
    var l := t.ln(0.001 / 2.0e8);
    LnBelowZero(t, 0.001 / 2.0e8);
    ExpLn(t, 0.001 / 2.0e8);
    MulSigns(a1, l, a1 * l);
    assert a1 != 0.0 ==> ((a1 * l + a2) - a2) / a1 == l by {
      if a1 != 0.0 {
        DivCancel(a1, l, (a1 * l + a2) - a2);
      }
    }
    a1 * l + a2
  }

  /** ln is negative below 1. */
  lemma LnBelowZero(t: Transcendentals, y: real)
    requires 0.0 < y < 1.0
    ensures t.ln(y) < 0.0
  {
    LnBelow(t, y, 0.0);
  }

  /** The sign of a product of four factors of which three are positive is
      the sign of the remaining one. */
  lemma ProductSign(a: real, b: real, c: real, d: real, p: real)
    requires a > 0.0 && c > 0.0 && d > 0.0 && p == a * b * c * d
    ensures (p > 0.0 <==> b > 0.0) && (p < 0.0 <==> b < 0.0)
  {
    MulPositive(a, c);
    MulPositive(a * c, d);
    assert p == b * (a * c * d);
    if b > 0.0 {
      MulPositive(b, a * c * d);
    } else if b < 0.0 {
      MulPositive(-b, a * c * d);
    }
  }

  /** Model B: above the gel point, E_interp(phi) * f_A * f_phi * f_eta, with
      E_interp the lookup-table interpolation at phi, and f_eta taken at the
      reduced temperature of min(T, T_max) against the high reference
      temperature with eta_1 = eta_1_A eta^eta_1_B and eta_0 affine in phi.
      With a positive interpolated modulus and a positive eta_1 the modulus
      has the sign of f_A. */
  function ModulusModelB(t: Transcendentals, interp: (real, seq<real>, seq<real>) -> real,
                         phi: real, temperature: real, gelPoint: real, tempMax: real, highRefTemp: real,
                         eta1A: real, eta1B: real, eta0A: real, eta0B: real, deta: real,
                         phi0: real, dphi: real, a1: real, a2: real,
                         phiMD: seq<real>, eMD: seq<real>): (e: real)
    requires phi >= gelPoint ==> highRefTemp + 273.15 != 0.0 && deta != 0.0 && dphi != 0.0
    ensures phi < gelPoint ==> e == PreGelModulus
    ensures phi >= gelPoint && interp(phi, phiMD, eMD) > 0.0
              && eta1A * t.pow(ClampedReducedTemperature(temperature, tempMax, highRefTemp), eta1B) > 0.0
            ==> (e > 0.0 <==> PreExponentialFactor(t, a1, a2) > 0.0)
                && (e < 0.0 <==> PreExponentialFactor(t, a1, a2) < 0.0)
  {
    if phi < gelPoint then PreGelModulus
    else
      var eta := ClampedReducedTemperature(temperature, tempMax, highRefTemp);
      var eta1 := eta1A * t.pow(eta, eta1B);
      var fEta := TemperatureFactor(t, eta, eta0A * phi + eta0B, deta, eta1);
      var fPhi := CureFactor(t, phi, phi0, dphi);
      var fA := PreExponentialFactor(t, a1, a2);
      var eInterp := interp(phi, phiMD, eMD);
      ModelBSign(eInterp, fA, fPhi, fEta, eta1);
      eInterp * fA * fPhi * fEta
  }

  lemma ModelBSign(eInterp: real, fA: real, fPhi: real, fEta: real, eta1: real)
    requires fPhi > 0.0 && (eta1 > 0.0 ==> fEta > 0.0)
    ensures eInterp > 0.0 && eta1 > 0.0 ==>
      (eInterp * fA * fPhi * fEta > 0.0 <==> fA > 0.0) && (eInterp * fA * fPhi * fEta < 0.0 <==> fA < 0.0)
  {
    if eInterp > 0.0 && eta1 > 0.0 {
      ProductSign(eInterp, fA, fPhi, fEta, eInterp * fA * fPhi * fEta);
    }
  }

  /** Model B does not see temperatures above T_max. */
  lemma ModulusModelBClamp(t: Transcendentals, interp: (real, seq<real>, seq<real>) -> real,
                           phi: real, temperature: real, gelPoint: real, tempMax: real, highRefTemp: real,
                           eta1A: real, eta1B: real, eta0A: real, eta0B: real, deta: real,
                           phi0: real, dphi: real, a1: real, a2: real,
                           phiMD: seq<real>, eMD: seq<real>)
    requires phi >= gelPoint ==> highRefTemp + 273.15 != 0.0 && deta != 0.0 && dphi != 0.0
    requires temperature >= tempMax
    ensures ModulusModelB(t, interp, phi, temperature, gelPoint, tempMax, highRefTemp, eta1A, eta1B, eta0A, eta0B, deta, phi0, dphi, a1, a2, phiMD, eMD)
         == ModulusModelB(t, interp, phi, tempMax, gelPoint, tempMax, highRefTemp, eta1A, eta1B, eta0A, eta0B, deta, phi0, dphi, a1, a2, phiMD, eMD)
  {
    if phi >= gelPoint {
      assert ClampedReducedTemperature(temperature, tempMax, highRefTemp)
          == ClampedReducedTemperature(tempMax, tempMax, highRefTemp);
    }
  }

  /** ln(5e-12) < -3/2, because exp(-3/2) >= 1/8 when exp is additive. */
  lemma LnOfTableRatio(t: Transcendentals)
    requires ExpAdditive(t)
    ensures t.ln(0.001 / 2.0e8) < -1.5
  {
    ExpTangent(t, -0.5);
    ExpSumBound(t, -0.5, -0.5, 0.5, 0.5);
    ExpSumBound(t, -1.0, -0.5, 0.25, 0.5);
    LnBelow(t, 0.001 / 2.0e8, -1.5);
  }

  /** At the test point phi = 0.6, T = 120 with gel point 0.4, T_max = 200,
      high reference 200 and (eta_1_A, eta_1_B, eta_0_A, eta_0_B, deta,
      phi_0, dphi, A_1, A_2) = (1.2, 0.6, 0.3, 0.05, 0.1, 0.5, 0.1, 2, 3),
      f_A = 2 ln(5e-12) + 3 is negative while every other factor is
      positive, so Model B returns a negative modulus for any lookup table
      whose interpolation at 0.6 is positive. */
  lemma ModulusModelBNegativeAtTestPoint(t: Transcendentals, interp: (real, seq<real>, seq<real>) -> real,
                                         phiMD: seq<real>, eMD: seq<real>)
    requires ExpAdditive(t) && interp(0.6, phiMD, eMD) > 0.0
    ensures PreExponentialFactor(t, 2.0, 3.0) < 0.0
    ensures ModulusModelB(t, interp, 0.6, 120.0, 0.4, 200.0, 200.0, 1.2, 0.6, 0.3, 0.05, 0.1, 0.5, 0.1, 2.0, 3.0, phiMD, eMD) < 0.0
  {
    LnOfTableRatio(t);
    var eta := ClampedReducedTemperature(120.0, 200.0, 200.0);
    assert eta > 0.0;
    assert t.pow(eta, 0.6) > 0.0;
    MulPositive(1.2, t.pow(eta, 0.6));
  }
}
