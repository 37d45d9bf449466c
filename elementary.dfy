/** The transcendental functions the property laws use: NumPy's `exp`, `log`
    and the real power `**`. They are not implemented here. Every law in the
    model is parametric in a record of three functions that is constrained by
    the facts the proofs rely on; the real exponential, logarithm and power
    satisfy all of them, and so does the rational surrogate below, which is
    the witness of the subset type and shows the facts are consistent. */
module Elementary {

  datatype Functions = Functions(exp: real -> real, ln: real -> real, pow: (real, real) -> real)

  /** The facts about exp, ln and pow that the model may use. The order of
      exp, its tangent bound and the inverse law of ln are stated through
      one-instance predicates, so the solver meets an instance only where a
      proof names it. */
  ghost predicate Laws(f: Functions) {
    && (forall x :: f.exp(x) > 0.0)
    && (forall x, y :: ExpOrdered(f, x, y))
    && f.exp(0.0) == 1.0
    && (forall x :: ExpAboveTangent(f, x))
    && (forall x :: LnInverts(f, x))
    && (forall b, e :: b >= 0.0 ==> f.pow(b, e) >= 0.0)
    && (forall b, e :: b > 0.0 ==> f.pow(b, e) > 0.0)
    && (forall e :: e > 0.0 ==> f.pow(0.0, e) == 0.0)
    && (forall b :: f.pow(b, 0.0) == 1.0)
    && (forall b :: f.pow(b, 1.0) == b)
    && (forall e :: f.pow(1.0, e) == 1.0)
  }

  ghost predicate ExpOrdered(f: Functions, x: real, y: real) {
    x < y ==> f.exp(x) < f.exp(y)
  }

  ghost predicate ExpAboveTangent(f: Functions, x: real) {
    f.exp(x) >= 1.0 + x
  }

  ghost predicate LnInverts(f: Functions, y: real) {
    y > 0.0 ==> f.exp(f.ln(y)) == y
  }

  /** exp(x + y) == exp(x) * exp(y). True of the real exponential, but of no
      rational function, so it is a separate hypothesis of the few lemmas
      that need a numeric bound on exp far from 0. */
  ghost predicate ExpAdditive(f: Functions) {
    forall x, y :: ExpSplits(f, x, y)
  }

  /** One instance of exp(x + y) == exp(x) * exp(y); the proofs name the
      instances they use, which keeps the solver from chaining them. */
  ghost predicate ExpSplits(f: Functions, x: real, y: real) {
    f.exp(x + y) == f.exp(x) * f.exp(y)
  }

  function SurrogateExp(x: real): (r: real)
    ensures r > 0.0 && r >= 1.0 + x
  {
    if x >= 0.0 then 1.0 + x
    else
      assert 1.0 / (1.0 - x) >= 1.0 + x by { ReciprocalAbove(1.0 - x, 1.0 + x); }
      1.0 / (1.0 - x)
  }

  function SurrogateLn(y: real): (x: real)
    ensures y > 0.0 ==> SurrogateExp(x) == y
  {
    if y >= 1.0 then y - 1.0
    else if y > 0.0 then
      assert 1.0 / y > 1.0 by { assert (1.0 / y) * y == 1.0; }
      1.0 - 1.0 / y
    else 0.0
  }

  function SurrogatePow(b: real, e: real): real {
    if e == 0.0 then 1.0 else if e == 1.0 then b else if b > 0.0 then 1.0 else 0.0
  }

  /** A rational stand-in for exp, ln and pow that meets every law. */
  function Surrogate(): (f: Functions)
    ensures Laws(f)
  {
    SurrogateLawful();
    Functions(SurrogateExp, SurrogateLn, SurrogatePow)
  }

  lemma SurrogateLawful()
    ensures Laws(Functions(SurrogateExp, SurrogateLn, SurrogatePow))
  {
    forall x: real, y: real | x < y
      ensures SurrogateExp(x) < SurrogateExp(y)
    {
      if y < 0.0 {
        ReciprocalStrictlyAntitone(1.0 - y, 1.0 - x);
      } else if x < 0.0 {
        ReciprocalStrictlyAntitone(1.0, 1.0 - x);
      }
    }
  }

  lemma ReciprocalAbove(a: real, c: real)
    requires a > 1.0 && a + c == 2.0
    ensures 1.0 / a >= c
  {
    assert a * c <= 1.0 by { assert a * c == 1.0 - (a - 1.0) * (a - 1.0); }
    assert (1.0 / a) * a == 1.0;
  }

  lemma ReciprocalStrictlyAntitone(a: real, b: real)
    requires 0.0 < a < b
    ensures 1.0 / b < 1.0 / a
  {
    assert 1.0 / a - 1.0 / b == (b - a) / (a * b);
  }

  type Transcendentals = f: Functions | Laws(f)
    witness Surrogate()

  /** Python's built-in two-argument min and max: each returns its first
      argument unless the second is strictly smaller (larger). */
  function Min(a: real, b: real): (m: real)
    ensures m <= a && m <= b && (m == a || m == b)
  {
    if b < a then b else a
  }

  function Max(a: real, b: real): (m: real)
    ensures m >= a && m >= b && (m == a || m == b)
  {
    if b > a then b else a
  }

  /** a square-free lower bound on exp: from exp(x) >= b >= 0 and
      exp(y) >= c >= 0 follows exp(x + y) >= b * c. */
  lemma ExpSumBound(t: Transcendentals, x: real, y: real, b: real, c: real)
    requires ExpAdditive(t)
    requires t.exp(x) >= b >= 0.0 && t.exp(y) >= c >= 0.0
    ensures t.exp(x + y) >= b * c
  {
    assert ExpSplits(t, x, y);
    var ex, ey := t.exp(x), t.exp(y);
    assert t.exp(x + y) == ex * ey;
    MulNonNegative(ex - b, ey);
    MulNonNegative(b, ey - c);
    assert ex * ey - b * ey == (ex - b) * ey;
    assert b * ey - b * c == b * (ey - c);
  }

  lemma MulNonNegative(a: real, b: real)
    requires a >= 0.0 && b >= 0.0
    ensures a * b >= 0.0
  {
  }

  lemma MulPositive(a: real, b: real)
    requires a > 0.0 && b > 0.0
    ensures a * b > 0.0
  {
  }

  /** Scaling by a positive factor keeps a strict order; the products are
      passed in by name so that callers can hand over any terms equal to them. */
  lemma MulStrictlyIncreasing(a: real, x: real, y: real, ax: real, ay: real)
    requires a > 0.0 && x < y && ax == a * x && ay == a * y
    ensures ax < ay
  {
    MulPositive(a, y - x);
  }

  /** Scaling by a factor in [0, 1] does not increase a non-negative a;
      the product is passed in by name. */
  lemma MulAtMost(a: real, x: real, ax: real)
    requires a >= 0.0 && x <= 1.0 && ax == a * x
    ensures ax <= a
  {
    MulNonNegative(a, 1.0 - x);
  }

  /** The signs of a product a * b, passed in by name. */
  lemma MulSigns(a: real, b: real, p: real)
    requires p == a * b
    ensures a > 0.0 && b > 0.0 ==> p > 0.0
    ensures a > 0.0 && b < 0.0 ==> p < 0.0
    ensures a < 0.0 && b < 0.0 ==> p > 0.0
    ensures a >= 0.0 && b >= 0.0 ==> p >= 0.0
    ensures a >= 0.0 && b <= 0.0 ==> p <= 0.0
  {
    if a > 0.0 && b < 0.0 {
      MulPositive(a, -b);
    } else if a < 0.0 && b < 0.0 {
      MulPositive(-a, -b);
    } else if a >= 0.0 && b <= 0.0 {
      MulNonNegative(a, -b);
    }
  }

  /** Dividing a product by one non-zero factor leaves the other. */
  lemma DivCancel(a: real, b: real, p: real)
    requires a != 0.0 && p == a * b
    ensures p / a == b
  {
  }

  lemma DivNonNegative(a: real, d: real)
    requires a >= 0.0 && d > 0.0
    ensures a / d >= 0.0
  {
  }

  lemma DivAtMostOne(a: real, d: real)
    requires a <= d && d > 0.0
    ensures a / d <= 1.0
  {
    var q := a / d;
    assert q * d == a;
    if q > 1.0 {
      MulNonNegative(q - 1.0, d);
    }
  }

  /** g / d1 <= g / d2 for g >= 0 and 0 < d2 <= d1. */
  lemma QuotientAntitone(g: real, d2: real, d1: real)
    requires g >= 0.0 && 0.0 < d2 <= d1
    ensures g / d1 <= g / d2
  {
    QuotientDifference(g, d2, g, d1);
    MulNonNegative(g, d1 - d2);
    assert g * d1 - g * d2 == g * (d1 - d2);
    MulPositive(d2, d1);
    DivNonNegative(g * d1 - g * d2, d2 * d1);
  }

  /** a / b - c / e == (a e - c b) / (b e). */
  lemma QuotientDifference(a: real, b: real, c: real, e: real)
    requires b != 0.0 && e != 0.0
    ensures b * e != 0.0
    ensures a / b - c / e == (a * e - c * b) / (b * e)
  {
    var p, q := a / b, c / e;
    assert p * b == a && q * e == c;
    assert (p - q) * (b * e) == a * e - c * b;
  }

  /** The logistic factor 1 / (1 + exp(x)) that every sigmoid of the model
      uses lies strictly between 0 and 1, and it falls as x grows. */
  lemma LogisticBounds(t: Transcendentals, x: real)
    ensures 0.0 < 1.0 / (1.0 + t.exp(x)) < 1.0
  {
    var e := t.exp(x);
    assert e > 0.0;
  }

  lemma LogisticAntitone(t: Transcendentals, x: real, y: real)
    requires x <= y
    ensures 1.0 / (1.0 + t.exp(y)) <= 1.0 / (1.0 + t.exp(x))
  {
    ExpMonotone(t, x, y);
    ReciprocalAntitone(1.0 + t.exp(x), 1.0 + t.exp(y));
  }

  lemma ReciprocalAntitone(a: real, b: real)
    requires 0.0 < a <= b
    ensures 1.0 / b <= 1.0 / a
  {
    assert 1.0 / a - 1.0 / b == (b - a) / (a * b);
  }

  /** Equal arguments give equal exponentials. */
  lemma ExpCongruent(t: Transcendentals, x: real, y: real)
    requires x == y
    ensures t.exp(x) == t.exp(y)
  {
  }

  /** exp is non-decreasing, which is what most monotonicity proofs need. */
  lemma ExpMonotone(t: Transcendentals, x: real, y: real)
    requires x <= y
    ensures t.exp(x) <= t.exp(y)
  {
    assert ExpOrdered(t, x, y);
  }

  /** exp is strictly increasing. */
  lemma ExpStrictlyIncreasing(t: Transcendentals, x: real, y: real)
    requires x < y
    ensures t.exp(x) < t.exp(y)
  {
    assert ExpOrdered(t, x, y);
  }

  /** exp undoes ln on the positive reals. */
  lemma ExpLn(t: Transcendentals, y: real)
    requires y > 0.0
    ensures t.exp(t.ln(y)) == y
  {
    assert LnInverts(t, y);
  }

  /** exp(x) >= 1 + x. */
  lemma ExpTangent(t: Transcendentals, x: real)
    ensures t.exp(x) >= 1.0 + x
  {
    assert ExpAboveTangent(t, x);
  }

  /** exp is below 1 left of 0 and above 1 right of 0. */
  lemma ExpAgainstOne(t: Transcendentals, x: real)
    ensures x < 0.0 ==> t.exp(x) < 1.0
    ensures x > 0.0 ==> t.exp(x) > 1.0
  {
    assert ExpOrdered(t, x, 0.0) && ExpOrdered(t, 0.0, x);
  }

  /** ln(y) < x whenever 0 < y < exp(x). */
  lemma LnBelow(t: Transcendentals, y: real, x: real)
    requires 0.0 < y < t.exp(x)
    ensures t.ln(y) < x
  {
    ExpLn(t, y);
    assert ExpOrdered(t, x, t.ln(y));
  }

  /** ln is non-decreasing on the positive reals, because it inverts exp. */
  lemma LnMonotone(t: Transcendentals, x: real, y: real)
    requires 0.0 < x <= y
    ensures t.ln(x) <= t.ln(y)
  {
    ExpLn(t, x);
    ExpLn(t, y);
    assert ExpOrdered(t, t.ln(y), t.ln(x));
  }
}
