# Curing-polymer property laws in Dafny

This project models the `models/` package of a finite-element toolkit for
thermosetting polymers that cure. The package is a library of stateless
scalar laws:

- the glass-transition temperature Tg as a function of the cure fraction phi
  (DiBenedetto, Venditti–Gillham, and Dykeman with its clamped
  critical-cure sigmoid);
- the cure rate as a function of phi, the temperature and Tg (Arrhenius,
  Prout–Thompkins, Kamal–Sourour, and the three-mechanism Dykeman law with
  regime selection, a floored logarithmic pre-exponential, a diffusion floor
  deep in the glassy state, and series combination of chemical and
  diffusion rates);
- two elastic-modulus laws gated at the gel point;
- an affine coefficient-of-thermal-expansion law and an affine specific-heat
  law.

Every law is a pure function, so the model is made of Dafny functions and
lemmas. Numbers are Dafny `real`s. Temperatures are in degrees Celsius and
are converted to Kelvin by adding 273.15 exactly where the source does.

NumPy's `exp`, `log` and real power `**` are not implemented. Every law takes
a value `t: Transcendentals`: a record of three functions, constrained by the
facts the proofs use (`Elementary.Laws`):

- exp is positive, strictly increasing, has exp(0) = 1 and exp(x) >= 1 + x;
- exp inverts ln on the positive reals;
- powers of non-negative bases are non-negative, and powers of positive bases
  are positive;
- 0^e = 0 for e > 0, b^0 = 1, b^1 = b and 1^e = 1.

A rational surrogate meets all of these facts and is the witness of the
type, so they are consistent. The additivity exp(x + y) = exp(x) exp(y) holds
for the real exponential but not for any rational surrogate. It is therefore
a separate hypothesis, `Elementary.ExpAdditive`, and only the lemmas that need
a numeric lower bound on exp far below zero assume it.

Files:

- `elementary.dfy`: the transcendental interface, Python's `min`/`max`, and
  small arithmetic lemmas.
- `tg_models.dfy`: `models/tg_models.py`.
- `kinetic_models.dfy`: `models/kinetic_models.py`.
- `elastic_modulus_model.dfy`: `models/elastic_modulus_model.py`.
- `cte_model.dfy`: `models/cte_model.py`.
- `cp_model.dfy`: `models/cp_model.py`.

Where the source divides, the divisor being non-zero is a precondition. This
applies to the Kelvin temperature, the DiBenedetto denominator, the free
volume, the three series sums Kc + Kd, and the sigmoid widths and reference
temperatures of the modulus laws. Two further preconditions come from the
logarithms the code takes:

- Venditti–Gillham takes ln Tg_0 and ln Tg_1, so it needs Tg_0 > 0 and Tg_1 > 0.
- The low-temperature, low-cure regime of mechanism 1 takes ln(phi), so it
  needs phi >= 0. At phi = 0, NumPy's -inf logarithm is floored to 50000, and
  the model returns 50000 there.

No other precondition is imposed. A negative Kd12, a negative free volume,
and parameters outside their physical ranges are modelled as the source
computes them with finite reals. The exception is a real power that Python or
NumPy would not return as a finite real (see "## Left out").

Behaviour of the code that a reader may not expect:

- Prout–Thompkins and Kamal–Sourour vanish at full cure only when n > 0,
  because (1 - 1)^0 = 1.
- The middle regime of mechanism 1 also uses the activation energy 73.300.
- The series combination Kc Kd / (Kc + Kd) lies below both rates when both
  are positive. With Kc > 0 > Kd, it lies below both when Kc + Kd > 0 and
  above both when Kc + Kd < 0 (`KineticModels.SeriesRateOppositeSigns`).
- Kd12 can be negative: Kd12 = k(4e12, 60, T) - 0.5268 / fv, even with fv > 0.
  Wherever -Kc1 < Kd12 < 0, Ke1 is negative, and the code then returns a
  negative cure rate for uncured material
  (`KineticModels.DykemanCureNegativeUncured`).
- The free volume is zero 312.5 degrees below Tg, but the diffusion floor
  only starts 323.15 degrees below Tg. In between, the free volume is
  negative and the diffusion rates lie above their rubbery-state bounds
  (`KineticModels.NegativeFreeVolumeWindow`).
- In Model B, f_A = A_1 ln(0.001 / 2.0e8) + A_2 depends on the arguments A_1
  and A_2, not on phi or T.
- At the Model B test point, f_A = 2 ln(5e-12) + 3 is negative. The code
  therefore returns a negative modulus there, although the test at
  `_models.py:65-71` expects a positive one
  (`ElasticModulusModels.ModulusModelBNegativeAtTestPoint`).

## Model

| member | source | states |
|---|---|---|
| Elementary.Min | models/tg_models.py:19 | Python `min`: a lower bound of both arguments that is one of them (the second only when strictly smaller) |
| Elementary.Max | models/tg_models.py:19 | Python `max`: an upper bound of both arguments that is one of them (the second only when strictly larger) |
| TgModels.DiBenedetto | models/tg_models.py:4-5 | Tg_0 at phi = 0; Tg_1 at phi = 1 when lam != 0; Tg_0 plus (Tg_1 - Tg_0) times the cure weight lam phi / (1 - (1 - lam) phi) |
| TgModels.DenominatorAtLeastLam | models/tg_models.py:5 | for lam in (0, 1] and phi in [0, 1] the denominator is at least lam > 0, so the law is defined on the whole range |
| TgModels.CureWeightBounds | models/tg_models.py:5 | on that range the cure weight lies in [0, 1] |
| TgModels.CureWeightMonotone | models/tg_models.py:5 | the cure weight is non-decreasing in phi on [0, 1] |
| TgModels.DiBenedettoMonotone | models/tg_models.py:4-5 | with Tg_0 <= Tg_1, DiBenedetto is non-decreasing in phi on [0, 1], as the monotonicity test of the fixture expects |
| TgModels.DiBenedettoBounds | models/tg_models.py:4-5 | with Tg_0 <= Tg_1, DiBenedetto stays within [Tg_0, Tg_1] on [0, 1] |
| TgModels.VendittiGillham | models/tg_models.py:7-8 | strictly positive wherever defined; Tg_0 at xi = 0 and Tg_1 at xi = 1 when lam != 0 |
| TgModels.VendittiGillhamIsLogDiBenedetto | models/tg_models.py:7-8 | Venditti–Gillham is exp of DiBenedetto applied to ln Tg_0 and ln Tg_1 |
| TgModels.VendittiGillhamMonotone | models/tg_models.py:7-8 | with 0 < Tg_0 <= Tg_1 it is non-decreasing in xi on [0, 1] |
| TgModels.VendittiGillhamBounds | models/tg_models.py:7-8 | with 0 < Tg_0 <= Tg_1 it stays within [Tg_0, Tg_1] on [0, 1] |
| TgModels.PhiCrit | models/tg_models.py:11-19 | the critical cure fraction always ends in [0.675, 1.0] |
| TgModels.PhiCritLine | models/tg_models.py:14-19 | with ramp 2.8 the first branch is never taken, and phi_crit is the clamp of 0.0025 T_C + 96973/280000 |
| TgModels.PhiCritMonotone | models/tg_models.py:12-19 | phi_crit never decreases as the temperature rises |
| TgModels.PhiCritSaturates | models/tg_models.py:12-19 | phi_crit is 0.675 up to 92027/700 C (about 131.47 C), 1.0 from 183027/700 C (about 261.47 C), and the unclamped line 0.0025 T_C + 96973/280000 in between |
| TgModels.CriticalSigmoidMonotone | models/tg_models.py:21 | the sigmoid 35 / (1 + exp(-25 (phi - phi_crit))) rises with phi |
| TgModels.DykemanTg | models/tg_models.py:10-22 | Dykeman Tg lies strictly between DiBenedetto and DiBenedetto + 35 |
| TgModels.DykemanTgDecomposition | models/tg_models.py:21 | the +273.15 and -273.15 cancel: Dykeman Tg is DiBenedetto plus the critical sigmoid |
| TgModels.DykemanTgAtPhiCrit | models/tg_models.py:21 | at phi = phi_crit the correction is exactly 17.5, half of D |
| TgModels.DykemanTgMonotone | models/tg_models.py:10-22 | with Tg_0 <= Tg_1 and lam in (0, 1], Dykeman Tg is non-decreasing in phi on [0, 1] |
| TgModels.DykemanTgPositiveForFixture | models/tg_models.py:21 | with Tg_0 = 50, Tg_1 = 180, lam = 0.8 and T_C = 150, Dykeman Tg is positive on [0, 1], which covers the swept test range [0.01, 0.99] |
| KineticModels.Arrhenius | models/kinetic_models.py:3-7 | R = 0.008314 and T_K = T_C + 273.15; the rate constant has the sign of A (positive, zero or negative) |
| KineticModels.ArrheniusAtMostPreExponential | models/kinetic_models.py:5-7 | for A >= 0, Ea >= 0 and T_K > 0 the rate constant is at most A |
| KineticModels.ArrheniusIncreasing | models/kinetic_models.py:5-7 | for A > 0 and Ea > 0 the rate constant strictly rises with temperature above absolute zero |
| KineticModels.ProutThompkins | models/kinetic_models.py:9-11 | zero at phi = 1 when n > 0 and at phi = 0 when m > 0; positive on (0, 1) when A > 0; non-negative on [0, 1] when A >= 0 |
| KineticModels.KamalSourour | models/kinetic_models.py:13-16 | zero at phi = 1 when n > 0; the uncatalysed rate k(A1, Ea1) at phi = 0 when m > 0; positive on (0, 1) when A1, A2 > 0; non-negative on [0, 1] when A1, A2 >= 0 |
| KineticModels.KamalSourourWithoutUncatalysedPath | models/kinetic_models.py:9-16 | with A1 = 0, Kamal–Sourour is Prout–Thompkins with (A2, Ea2, m, n) |
| KineticModels.Mechanism1Constants | models/kinetic_models.py:23-32 | exactly one regime applies: T_C >= 124 gives (14240, 66.435); otherwise Ec1 = 73.300, and Ac1 = 113881 for phi >= 0.035, or 34378 ln(phi) + 229563 floored at 50000 for 0 < phi < 0.035, with the floor active exactly when the logarithmic value does not exceed it, and the floor 50000 at phi = 0 |
| KineticModels.FreeVolume | models/kinetic_models.py:44-45 | fv is positive exactly when T_C - Tg > -312.5 and zero exactly at -312.5 |
| KineticModels.DiffusionRates | models/kinetic_models.py:41-51 | below -323.15 both rates are exactly 1e-99 and fv is not used; Kd3 is always positive; for fv > 0 Kd12 lies below k(4e12, 60) and Kd3 below 1.5e9, and for fv < 0 both lie above |
| KineticModels.NegativeFreeVolumeWindow | models/kinetic_models.py:45-51 | at T_C - Tg = -320 the free volume is negative and both diffusion rates exceed their bounds |
| KineticModels.SeriesRate | models/kinetic_models.py:53-55 | for positive Kc and Kd, Ke is positive, below both, and 1/Ke = 1/Kc + 1/Kd |
| KineticModels.SeriesRateOppositeSigns | models/kinetic_models.py:53-55 | for Kc > 0 > Kd the combination is below both rates when Kc + Kd > 0 and above both when Kc + Kd < 0 |
| KineticModels.ChemicalRates | models/kinetic_models.py:34-39 | all three chemical rates are positive, and Kc1 is the Arrhenius rate of the regime constants |
| KineticModels.EffectiveRates | models/kinetic_models.py:53-55 | Ke3 is always positive; Ke1 and Ke2 are positive when Kd12 is, in particular under the diffusion floor |
| KineticModels.MechanismSum | models/kinetic_models.py:19-21 | the three-term sum with exponents (0, 1), (1, 2.5), (2.91, 0.83) is non-negative on [0, 1] for non-negative Ke, and positive on (0, 1) once Ke1 > 0 |
| KineticModels.MechanismSumTerms | models/kinetic_models.py:57 | with phi^0 = 1 and x^1 = x the sum is Ke1 (1 - phi) + Ke2 phi (1 - phi)^2.5 + Ke3 phi^2.91 (1 - phi)^0.83 |
| KineticModels.DykemanCure | models/kinetic_models.py:18-57 | non-negative on [0, 1] and positive on (0, 1) whenever Kd12 is positive or the diffusion floor applies |
| KineticModels.DykemanCureAtFullCure | models/kinetic_models.py:57 | at phi = 1 the cure rate is 0 at every temperature |
| KineticModels.DykemanCureUncured | models/kinetic_models.py:57 | at phi = 0 the cure rate is Ke1, at every temperature |
| KineticModels.DykemanCureNegativeUncured | models/kinetic_models.py:41-57 | where -Kc1 < Kd12 < 0, the cure rate at phi = 0 is negative |
| KineticModels.DykemanCureFixture | models/kinetic_models.py:18-57 | at T_C = 160 and Tg = 140 the law is defined for every phi in [0, 1] and the rate is non-negative there, covering the tested cure states 0.01, 0.05, 0.1 and 0.9 |
| ElasticModulusModels.ReducedTemperature | models/elastic_modulus_model.py:7 | eta is 0 at the reference temperature; above absolute zero it is non-negative exactly when T <= T_ref and positive exactly when T < T_ref |
| ElasticModulusModels.ReducedTemperatureAntitone | models/elastic_modulus_model.py:7 | eta falls as the temperature rises |
| ElasticModulusModels.ClampedReducedTemperature | models/elastic_modulus_model.py:6-7 | the clamp min(T, T_max): at or above T_max eta is that of T_max, at or below it is that of T |
| ElasticModulusModels.SigmoidBlend | models/elastic_modulus_model.py:12 | A2 + (A1 - A2) / (1 + exp(x)) lies strictly between A2 and A1 (equal to both when they agree) and is their mean at x = 0 |
| ElasticModulusModels.SigmoidBlendAntitone | models/elastic_modulus_model.py:12 | with A1 >= A2 the blend falls as x rises |
| ElasticModulusModels.ModulusModelA | models/elastic_modulus_model.py:3-12 | exactly 1e-6 for phi < gel_point; from the gel point on (the comparison is strict) the result lies between A2 = A2_A phi + A2_B and A1 = A1_A exp(A1_B phi) |
| ElasticModulusModels.ModulusModelAClamp | models/elastic_modulus_model.py:6 | every temperature at or above T_ref gives the value at T_ref |
| ElasticModulusModels.ModulusModelAReducedTemperature | models/elastic_modulus_model.py:6-7 | for T_ref + 273.15 > 0 the clamped eta is non-negative, and zero from T_ref upward |
| ElasticModulusModels.ModulusModelAMidpoint | models/elastic_modulus_model.py:8-12 | where eta equals eta_0 the result is the mean of A1 and A2 |
| ElasticModulusModels.ModulusModelAWarming | models/elastic_modulus_model.py:6-12 | with A1 >= A2 and a positive width, the modulus does not fall as the temperature rises |
| ElasticModulusModels.ModulusModelAPositive | models/elastic_modulus_model.py:3-12 | positive whenever A1_A > 0 and A2 > 0 |
| ElasticModulusModels.ModulusModelAAtTestPoint | models/elastic_modulus_model.py:3-12 | positive at phi = 0.5, T = 100 with the test constants |
| ElasticModulusModels.LogisticComplement | models/elastic_modulus_model.py:24-25 | 1 - (1 + exp(1 + x))^-1 lies strictly between 0 and 1 |
| ElasticModulusModels.LogisticComplementMonotone | models/elastic_modulus_model.py:24-25 | it rises with x |
| ElasticModulusModels.CureFactor | models/elastic_modulus_model.py:25 | f_phi lies strictly between 0 and 1 |
| ElasticModulusModels.CureFactorMonotone | models/elastic_modulus_model.py:25 | for dphi > 0, f_phi rises with phi |
| ElasticModulusModels.TemperatureFactor | models/elastic_modulus_model.py:22-24 | f_eta has the sign of eta_1 and a smaller magnitude |
| ElasticModulusModels.PreExponentialFactor | models/elastic_modulus_model.py:26 | f_A depends on A_1 and A_2 only; it lies below A_2 for A_1 > 0 and above it for A_1 < 0; for A_1 != 0, exp((f_A - A_2) / A_1) recovers 0.001 / 2.0e8 |
| ElasticModulusModels.ModulusModelB | models/elastic_modulus_model.py:17-28 | exactly 1e-6 for phi < gel_point; from the gel point on, with a positive interpolated modulus and a positive eta_1, the result has the sign of f_A |
| ElasticModulusModels.ModulusModelBClamp | models/elastic_modulus_model.py:20 | every temperature at or above T_max gives the value at T_max |
| ElasticModulusModels.LnOfTableRatio | models/elastic_modulus_model.py:26 | ln(0.001 / 2.0e8) < -1.5 when exp is additive |
| ElasticModulusModels.ModulusModelBNegativeAtTestPoint | models/elastic_modulus_model.py:17-28 | at the test point f_A < 0 and the modulus is negative for every lookup table whose interpolation at 0.6 is positive |
| CteModels.CteModelLinear | models/cte_model.py:5-7 | beta * 1e-5 at phi = 0 and (alpha + beta) * 1e-5 at phi = 1 |
| CteModels.CteModelA | models/cte_model.py:1-3 | alpha * 1e-5 at phi = gelation; equal to the linear law with slope -beta and intercept alpha + beta g, with no branch on the gelation value |
| CteModels.CteModelLinearDifference | models/cte_model.py:7 | between two cure states the linear law changes by alpha (phi2 - phi1) 1e-5 |
| CteModels.CteModelLinearMonotone | models/cte_model.py:7 | non-decreasing in phi for alpha >= 0 |
| CteModels.CteModelAMonotone | models/cte_model.py:3 | non-increasing in phi for beta >= 0 |
| CteModels.CteModelAPositiveOnCureRange | models/cte_model.py:3 | positive on [0, 1] with gelation 0.45, alpha = 80, beta = 70 |
| CteModels.CteModelLinearPositiveOnCureRange | models/cte_model.py:7 | positive on [0, 1] with alpha = 90, beta = 10 |
| CpModels.CpModelLinear | models/cp_model.py:1-3 | beta * 1e9 at T = 0; positive for T >= 0 when alpha >= 0 and beta > 0 |
| CpModels.CpModelLinearDifference | models/cp_model.py:3 | cp(T2) - cp(T1) = alpha (T2 - T1) 1e9 |
| CpModels.CpModelLinearMonotone | models/cp_model.py:3 | non-decreasing for alpha >= 0, strictly increasing for alpha > 0 |
| CpModels.CpModelLinearPositiveOnRange | models/cp_model.py:3 | positive on [20, 500] with alpha = 1.2e-3, beta = 0.2 |
| CpModels.CpProfile | models/cp_model.py:1-3 | the elementwise evaluation over a sweep of temperatures: one value per temperature, each the law at that temperature |
| CpModels.CpProfileNonDecreasing | models/cp_model.py:3 | for alpha >= 0, an ascending temperature sweep gives a profile with no negative step |

## Left out

- IEEE-754 behaviour is not modelled: NaN, infinities, overflow, rounding. The constants 1e-99, 1e-6, 1e-5 and 1e9 are exact reals.
- exp, ln and real powers are constrained by laws, not implemented. A non-integral real power of a negative base is some real number here, while Python returns a complex number and NumPy returns NaN.
- A zero base raised to a negative power is a finite non-negative real here, because the laws make pow(0, e) >= 0 for every e. Python raises ZeroDivisionError and NumPy returns inf. This affects `phi ** m` at phi = 0 with m < 0 and `(1 - phi) ** n` at phi = 1 with n < 0 in Prout–Thompkins and Kamal–Sourour (`models/kinetic_models.py:11`, `:16`), and `eta ** eta_1_B` at eta = 0 with eta_1_B < 0 in Model B (`models/elastic_modulus_model.py:22`). The sign and zero promises of KineticModels.ProutThompkins, KineticModels.KamalSourour and ElasticModulusModels.ModulusModelB therefore say nothing about what the code does at those points.
- `x ** (-1)` in Model B is modelled as the reciprocal 1 / x.
- KineticModels.Mechanism1Constants: requires phi >= 0 in the low-temperature, low-cure regime. For a negative phi there, NumPy's log gives NaN, and NaN is not modelled.
- `linear_interpolation_from_lookup` (np.interp) is a parameter of Model B, not a definition. Its piecewise-linear, flat-extrapolated behaviour is not modelled, so Model B's lemmas only assume the sign of the interpolated value.
- ElasticModulusModels.ModulusModelBNegativeAtTestPoint: states that the result is negative. The test at `_models.py:65-71` expects a positive one, and the code as written cannot satisfy it.
- Elementwise evaluation over NumPy arrays is modelled only for the specific heat (`CpModels.CpProfile`). The other laws are scalar, and their sweep tests are covered by all-inputs lemmas over the swept interval.
- The Abaqus host scripts, input-file editing, plotting, PDF and ODB reading are outside these laws. So is the time integration of the cure rate, which is not in this code.
