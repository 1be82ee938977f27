// Basic value types shared by the renderer: three-component vectors (points,
// directions and RGB spectra alike), 2-D sample points, an optional value,
// an upper bound that may be +infinity, and the renderer-wide constants.
// Floating-point numbers are modelled as mathematical reals.
module Types {

  datatype Option<T> = None | Some(value: T)

  /** A 3-component vector of reals: a point, a direction or an RGB spectrum. */
  datatype Vec3 = Vec3(x: real, y: real, z: real)

  /** An RGB radiance or reflectance triple. */
  type Spectrum = Vec3

  /** A coordinate axis index: 0 = x, 1 = y, 2 = z. */
  type Axis = i: int | 0 <= i < 3

  /** A 2-D sample point or texture coordinate. */
  datatype Point2 = Point2(x: real, y: real)

  /** An upper bound on a ray parameter that may be +infinity. */
  datatype Ext = Fin(val: real) | Inf

  /** Ray epsilon used to offset spawned rays and as the default tMin. */
  const RayEpsilon: real := 0.00001

  /** pi to double precision. */
  const Pi: real := 3.141592653589793

  const Black: Spectrum := Vec3(0.0, 0.0, 0.0)

  function Comp(v: Vec3, axis: Axis): real
  {
    if axis == 0 then v.x else if axis == 1 then v.y else v.z
  }

  function Splat(s: real): Vec3 { Vec3(s, s, s) }

  function Add(a: Vec3, b: Vec3): Vec3 { Vec3(a.x + b.x, a.y + b.y, a.z + b.z) }

  function Sub(a: Vec3, b: Vec3): Vec3 { Vec3(a.x - b.x, a.y - b.y, a.z - b.z) }

  function Neg(a: Vec3): Vec3 { Vec3(-a.x, -a.y, -a.z) }

  function Scale(s: real, a: Vec3): Vec3 { Vec3(s * a.x, s * a.y, s * a.z) }

  /** Component-wise product, as glm's operator* on two vectors. */
  function Mul(a: Vec3, b: Vec3): Vec3 { Vec3(a.x * b.x, a.y * b.y, a.z * b.z) }

  function Dot(a: Vec3, b: Vec3): real { a.x * b.x + a.y * b.y + a.z * b.z }

  function Cross(a: Vec3, b: Vec3): Vec3
  {
    Vec3(a.y * b.z - a.z * b.y, a.z * b.x - a.x * b.z, a.x * b.y - a.y * b.x)
  }

  /** std::min as the standard library defines it: (b < a) ? b : a. */
  function Min(a: real, b: real): real { if b < a then b else a }

  /** std::max as the standard library defines it: (a < b) ? b : a. */
  function Max(a: real, b: real): real { if a < b then b else a }

  function MinV(a: Vec3, b: Vec3): Vec3 { Vec3(Min(a.x, b.x), Min(a.y, b.y), Min(a.z, b.z)) }

  function MaxV(a: Vec3, b: Vec3): Vec3 { Vec3(Max(a.x, b.x), Max(a.y, b.y), Max(a.z, b.z)) }

  /** std::clamp on reals (lo <= hi). */
  function ClampR(v: real, lo: real, hi: real): real
    requires lo <= hi
  {
    if v < lo then lo else if hi < v then hi else v
  }

  /** std::clamp on integers (lo <= hi). */
  function ClampI(v: int, lo: int, hi: int): int
    requires lo <= hi
  {
    if v < lo then lo else if hi < v then hi else v
  }

  function Abs(x: real): real { if x < 0.0 then -x else x }

  /** Conversion of a double to int: truncation toward zero. */
  function Trunc(x: real): int
  {
    if x >= 0.0 then x.Floor else -((-x).Floor)
  }

  /** t lies at or below the bound b. */
  predicate AtMost(t: real, b: Ext)
  {
    b.Inf? || t <= b.val
  }

  /** t lies strictly below the bound b. */
  predicate Below(t: real, b: Ext)
  {
    b.Inf? || t < b.val
  }

  /** std::min(b, t) where b may be +infinity. */
  function MinExt(b: Ext, t: real): real
  {
    if b.Inf? then t else Min(b.val, t)
  }

  /** sqrt is an exact, non-negative square root on non-negative arguments. */
  ghost predicate IsSqrt(sqrt: real -> real)
  {
    forall x {:trigger sqrt(x)} :: 0.0 <= x ==> 0.0 <= sqrt(x) && sqrt(x) * sqrt(x) == x
  }

  /** glm::normalize: v scaled by the reciprocal of its length. */
  function Normalize(v: Vec3, sqrt: real -> real): Vec3
    requires IsSqrt(sqrt) && Dot(v, v) > 0.0
  {
    assert sqrt(Dot(v, v)) * sqrt(Dot(v, v)) == Dot(v, v);
    Scale(1.0 / sqrt(Dot(v, v)), v)
  }

  /** The square root of a positive number is positive. */
  lemma SqrtPositive(sqrt: real -> real, x: real)
    requires IsSqrt(sqrt) && x > 0.0
    ensures sqrt(x) > 0.0
  {
    assert sqrt(x) * sqrt(x) == x;
  }

  /** The non-negative root is unique: sqrt(c * c) == c for c >= 0. */
  lemma SqrtOfSquare(sqrt: real -> real, c: real)
    requires IsSqrt(sqrt) && c >= 0.0
    ensures sqrt(c * c) == c
  {
    var s := sqrt(c * c);
    assert s >= 0.0 && s * s == c * c;
    assert (s - c) * (s + c) == 0.0;
    if s + c == 0.0 {
      assert s == 0.0 && c == 0.0;
    } else {
      assert s - c == ((s - c) * (s + c)) / (s + c);
    }
  }

  /** Normalising gives a unit vector. */
  lemma NormalizeIsUnit(v: Vec3, sqrt: real -> real)
    requires IsSqrt(sqrt) && Dot(v, v) > 0.0
    ensures Dot(Normalize(v, sqrt), Normalize(v, sqrt)) == 1.0
  {
    var l := sqrt(Dot(v, v));
    SqrtPositive(sqrt, Dot(v, v));
    var k := 1.0 / l;
    assert l * l == Dot(v, v);
    calc {
      Dot(Scale(k, v), Scale(k, v));
      k * k * Dot(v, v);
      k * k * (l * l);
      (k * l) * (k * l);
      1.0;
    }
  }

  /** A unit vector is its own normalisation. */
  lemma NormalizeUnit(v: Vec3, sqrt: real -> real)
    requires IsSqrt(sqrt) && Dot(v, v) == 1.0
    ensures Normalize(v, sqrt) == v
  {
    SqrtOfSquare(sqrt, 1.0);
  }
}
