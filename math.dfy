// Scalar and vector helpers of the renderer's math header: clamping,
// interpolation, a guarded reciprocal, angle conversion, reflection,
// refraction with its total-internal-reflection test, and the largest
// component of a vector.
module RtMath {
  import opened Types

  function Sqr(x: real): real { x * x }

  /** sqrt of max(x, 0): negative rounding residue is clamped away first. */
  function SafeSqrt(x: real, sqrt: real -> real): real
  {
    sqrt(Max(x, 0.0))
  }

  /** Clamp to [0, 1]. */
  function Saturate(x: real): (r: real)
    ensures 0.0 <= r <= 1.0
    ensures 0.0 <= x <= 1.0 ==> r == x
    ensures x < 0.0 ==> r == 0.0
    ensures x > 1.0 ==> r == 1.0
  {
    ClampR(x, 0.0, 1.0)
  }

  /** Linear interpolation (1 - t) * a + t * b. */
  function Lerp(a: real, b: real, t: real): real
  {
    (1.0 - t) * a + t * b
  }

  /** The end points of the interpolation are a (t = 0) and b (t = 1). */
  lemma LerpEndpoints(a: real, b: real)
    ensures Lerp(a, b, 0.0) == a && Lerp(a, b, 1.0) == b
  {
  }

  /** For t in [0, 1] the interpolant lies between a and b. */
  lemma LerpBetween(a: real, b: real, t: real)
    requires 0.0 <= t <= 1.0
    ensures Min(a, b) <= Lerp(a, b, t) <= Max(a, b)
  {
    assert Lerp(a, b, t) == a + t * (b - a);
    if a <= b {
      MulNonNeg(t, b - a);
      MulNonNeg(1.0 - t, b - a);
    } else {
      MulNonNeg(t, a - b);
      MulNonNeg(1.0 - t, a - b);
    }
  }

  lemma MulPos(a: real, b: real)
    requires a > 0.0 && b > 0.0
    ensures a * b > 0.0
  {
  }

  lemma ZeroProduct(a: real, b: real)
    requires a * b == 0.0
    ensures a == 0.0 || b == 0.0
  {
    if a != 0.0 {
      assert b == (a * b) / a;
    }
  }

  lemma MulNonNeg(x: real, y: real)
    requires x >= 0.0 && y >= 0.0
    ensures x * y >= 0.0
  {
  }

  const RecipEpsilon: real := 0.000001

  /** 1/x, except that |x| < 1e-6 divides by +-1e-6 keeping the sign of x (0 counts as positive). */
  function SafeRecip(x: real): (r: real)
    ensures Abs(x) >= RecipEpsilon ==> r * x == 1.0
    ensures Abs(x) < RecipEpsilon && x >= 0.0 ==> r == 1000000.0
    ensures Abs(x) < RecipEpsilon && x < 0.0 ==> r == -1000000.0
    ensures -1000000.0 <= r <= 1000000.0
    ensures (r > 0.0) <==> (x >= 0.0)
  {
    if Abs(x) < RecipEpsilon then
      1.0 / (if x >= 0.0 then RecipEpsilon else -RecipEpsilon)
    else
      SafeRecipBound(x);
      1.0 / x
  }

  lemma SafeRecipBound(x: real)
    requires Abs(x) >= RecipEpsilon
    ensures -1000000.0 <= 1.0 / x <= 1000000.0
  {
    if x > 0.0 {
      assert 1.0 / x <= 1.0 / RecipEpsilon;
    } else {
      assert 1.0 / (-x) <= 1.0 / RecipEpsilon;
      assert 1.0 / x == -(1.0 / (-x));
    }
  }

  function ToRadians(degrees: real): real { degrees * (Pi / 180.0) }

  function ToDegrees(radians: real): real { radians * (180.0 / Pi) }

  /** Converting to radians and back gives the original angle. */
  lemma DegreesRoundTrip(x: real)
    ensures ToDegrees(ToRadians(x)) == x
  {
    calc {
      ToDegrees(ToRadians(x));
      x * ((Pi / 180.0) * (180.0 / Pi));
      x * 1.0;
    }
  }

  /** GLSL-style reflection of an incident direction v about n: v - 2 (v . n) n. */
  function ReflectIncident(v: Vec3, n: Vec3): Vec3
  {
    Sub(v, Scale(2.0 * Dot(v, n), n))
  }

  /** For unit n the reflection flips the normal component and keeps the length. */
  lemma ReflectIncidentGeometry(v: Vec3, n: Vec3)
    requires Dot(n, n) == 1.0
    ensures Dot(ReflectIncident(v, n), n) == -Dot(v, n)
    ensures Dot(ReflectIncident(v, n), ReflectIncident(v, n)) == Dot(v, v)
  {
    var k := Dot(v, n);
    var r := ReflectIncident(v, n);
    assert Dot(r, n) == Dot(v, n) - 2.0 * k * Dot(n, n);
    assert Dot(r, r) == Dot(v, v) - 4.0 * k * Dot(v, n) + 4.0 * k * k * Dot(n, n);
  }

  /** pbrt-style reflection of an outgoing direction: reflectIncident(-wo, n). */
  function ReflectOutward(wo: Vec3, n: Vec3): Vec3
  {
    ReflectIncident(Neg(wo), n)
  }

  /** For unit n the outward reflection keeps the normal component and the length. */
  lemma ReflectOutwardGeometry(wo: Vec3, n: Vec3)
    requires Dot(n, n) == 1.0
    ensures Dot(ReflectOutward(wo, n), n) == Dot(wo, n)
    ensures Dot(ReflectOutward(wo, n), ReflectOutward(wo, n)) == Dot(wo, wo)
  {
    ReflectIncidentGeometry(Neg(wo), n);
  }

  /** sin^2 of the transmitted angle for incident v, normal n and index ratio eta. */
  function SinSqTransmitted(v: Vec3, n: Vec3, eta: real): real
  {
    Sqr(eta) * (1.0 - Sqr(Dot(Neg(v), n)))
  }

  /** The result of refractIncident: the success flag and the (possibly untouched) output vector. */
  datatype Refraction = Refraction(ok: bool, refracted: Vec3)

  /** eta v + (eta cos_i - cos_t) n, the transmitted direction when there is no total internal reflection. */
  function TransmittedDirection(v: Vec3, n: Vec3, eta: real, sqrt: real -> real): Vec3
  {
    var cosi := Dot(Neg(v), n);
    var cost := SafeSqrt(1.0 - SinSqTransmitted(v, n, eta), sqrt);
    Add(Scale(eta, v), Scale(eta * cosi - cost, n))
  }

  /**
   * Refraction of the incident direction v; `refracted` is the caller's
   * output vector, returned untouched on total internal reflection.
   */
  function RefractIncident(v: Vec3, n: Vec3, eta: real, refracted: Vec3, sqrt: real -> real): (r: Refraction)
    ensures !r.ok <==> SinSqTransmitted(v, n, eta) > 1.0
    ensures !r.ok ==> r.refracted == refracted
  {
    if SinSqTransmitted(v, n, eta) > 1.0 then
      Refraction(false, refracted)
    else
      Refraction(true, TransmittedDirection(v, n, eta, sqrt))
  }

  /** For unit v and n and an exact sqrt, a refracted direction is a unit vector. */
  lemma RefractedIsUnit(v: Vec3, n: Vec3, eta: real, refracted: Vec3, sqrt: real -> real)
    requires IsSqrt(sqrt) && Dot(v, v) == 1.0 && Dot(n, n) == 1.0
    requires RefractIncident(v, n, eta, refracted, sqrt).ok
    ensures var t := RefractIncident(v, n, eta, refracted, sqrt).refracted; Dot(t, t) == 1.0
  {
    var cosi := Dot(Neg(v), n);
    var sin2t := SinSqTransmitted(v, n, eta);
    var cost := SafeSqrt(1.0 - sin2t, sqrt);
    assert Max(1.0 - sin2t, 0.0) == 1.0 - sin2t;
    assert cost * cost == 1.0 - sin2t;
    var k := eta * cosi - cost;
    var t := TransmittedDirection(v, n, eta, sqrt);
    assert t == Add(Scale(eta, v), Scale(k, n));
    DotNegLeft(v, n);
    DotOfCombination(v, n, eta, k);
    TransmittedLength(eta, cosi, cost, k, sin2t);
  }

  lemma DotNegLeft(v: Vec3, n: Vec3)
    ensures Dot(Neg(v), n) == -Dot(v, n)
  {
  }

  /** eta^2 + 2 eta k (-cos_i) + k^2 == 1 once cos_t^2 == 1 - sin^2 of the transmitted angle. */
  lemma TransmittedLength(eta: real, cosi: real, cost: real, k: real, sin2t: real)
    requires cost * cost == 1.0 - sin2t && sin2t == Sqr(eta) * (1.0 - Sqr(cosi))
    requires k == eta * cosi - cost
    ensures eta * eta * 1.0 + 2.0 * eta * k * (-cosi) + k * k * 1.0 == 1.0
  {
    calc {
      eta * eta * 1.0 + 2.0 * eta * k * (-cosi) + k * k * 1.0;
      eta * eta - 2.0 * (eta * cosi) * k + k * k;
      { SquareOfDifference(eta * cosi, cost);
        assert (eta * cosi) * k == (eta * cosi) * (eta * cosi) - (eta * cosi) * cost; }
      eta * eta - (eta * cosi) * (eta * cosi) + cost * cost;
      { assert (eta * cosi) * (eta * cosi) == eta * eta * (cosi * cosi); }
      sin2t + cost * cost;
      1.0;
    }
  }

  lemma SquareOfDifference(a: real, b: real)
    ensures (a - b) * (a - b) == a * a - 2.0 * a * b + b * b
  {
  }

  /** Expansion of the squared length of p a + q b. */
  lemma DotOfCombination(a: Vec3, b: Vec3, p: real, q: real)
    ensures var c := Add(Scale(p, a), Scale(q, b));
      Dot(c, c) == p * p * Dot(a, a) + 2.0 * p * q * Dot(a, b) + q * q * Dot(b, b)
  {
    var c := Add(Scale(p, a), Scale(q, b));
    assert c.x * c.x == p * p * (a.x * a.x) + 2.0 * p * q * (a.x * b.x) + q * q * (b.x * b.x);
    assert c.y * c.y == p * p * (a.y * a.y) + 2.0 * p * q * (a.y * b.y) + q * q * (b.y * b.y);
    assert c.z * c.z == p * p * (a.z * a.z) + 2.0 * p * q * (a.z * b.z) + q * q * (b.z * b.z);
  }

  /** std::max over the three components. */
  function MaxComponent(v: Vec3): (m: real)
    ensures m >= v.x && m >= v.y && m >= v.z
    ensures m == v.x || m == v.y || m == v.z
  {
    Max(Max(v.x, v.y), v.z)
  }
}
