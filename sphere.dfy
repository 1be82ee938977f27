// The sphere primitive: the half-b quadratic intersection that picks the
// nearest root inside the ray's [tMin, tMax], the hit record it fills in,
// the tMax update, and the sphere's bounding box.
module Spheres {
  import opened Types
  import opened RtMath
  import opened Rays
  import opened Interaction
  import opened Aabb

  /** A sphere with its centre, radius and the index of its material. */
  datatype SphereShape = SphereShape(center: Vec3, radius: real, material: nat)

  /** p lies on the sphere's surface. */
  predicate OnSphere(s: SphereShape, p: Vec3)
  {
    Dot(Sub(p, s.center), Sub(p, s.center)) == s.radius * s.radius
  }

  /** t lies in the ray's closed interval: neither below tMin nor above tMax. */
  predicate InRange(t: real, r: Ray)
  {
    r.tMin <= t && AtMost(t, r.tMax)
  }

  /** The coefficients of a t^2 + 2 halfB t + c = 0 for the ray against the sphere. */
  function QuadA(r: Ray): real { Dot(r.d, r.d) }

  function HalfB(s: SphereShape, r: Ray): real { Dot(Sub(r.o, s.center), r.d) }

  function QuadC(s: SphereShape, r: Ray): real
  {
    Dot(Sub(r.o, s.center), Sub(r.o, s.center)) - s.radius * s.radius
  }

  function Discriminant(s: SphereShape, r: Ray): real
  {
    HalfB(s, r) * HalfB(s, r) - QuadA(r) * QuadC(s, r)
  }

  /**
   * The root the hit test keeps once a != 0 and sq = sqrt(disc) are known:
   * the nearer root (-halfB - sq) / a if it is in range, else the farther
   * root (-halfB + sq) / a if it is in range, else none.
   */
  function PickRoot(a: real, hb: real, sq: real, r: Ray): Option<real>
    requires a != 0.0
  {
    if InRange((-hb - sq) / a, r) then Some((-hb - sq) / a)
    else if InRange((-hb + sq) / a, r) then Some((-hb + sq) / a)
    else None
  }

  /**
   * The parameter the hit test reports: none for a zero direction or a
   * negative discriminant, else the root PickRoot keeps.
   */
  function SphereRoot(s: SphereShape, r: Ray, sqrt: real -> real): (res: Option<real>)
    ensures QuadA(r) == 0.0 ==> res.None?
    ensures res.Some? ==> InRange(res.value, r)
  {
    if QuadA(r) == 0.0 then None
    else if Discriminant(s, r) < 0.0 then None
    else PickRoot(QuadA(r), HalfB(s, r), sqrt(Discriminant(s, r)), r)
  }

  /** (p - center) / radius. */
  function OutwardNormal(s: SphereShape, p: Vec3): Vec3
    requires s.radius != 0.0
  {
    Scale(1.0 / s.radius, Sub(p, s.center))
  }

  /**
   * The record after a hit at t: t and p are set, the normal is oriented by
   * setFaceNormal and the material recorded; wo, uv, dpdu and dpdv keep
   * whatever the caller's record held.
   */
  function SphereRecord(s: SphereShape, r: Ray, t: real, rec: SurfaceInteraction): SurfaceInteraction
    requires s.radius != 0.0
  {
    var p := At(r, t);
    SetFaceNormal(rec.(t := t, p := p), r.d, OutwardNormal(s, p)).(mat := Some(s.material))
  }

  /** The whole effect of Sphere::hit: the verdict, the ray with tMax = t on a hit, and the record. */
  function SphereTrace(s: SphereShape, r: Ray, rec: SurfaceInteraction, sqrt: real -> real): (res: HitResult)
    requires s.radius != 0.0
    ensures res.hit == SphereRoot(s, r, sqrt).Some?
    ensures res.hit ==> res.ray == r.(tMax := Fin(res.rec.t)) && InRange(res.rec.t, r)
    ensures !res.hit ==> res.ray == r && res.rec == rec
  {
    match SphereRoot(s, r, sqrt)
    case None => HitResult(false, r, rec)
    case Some(t) => HitResult(true, r.(tMax := Fin(t)), SphereRecord(s, r, t, rec))
  }

  /**
   * Sphere::hit step by step; rec and the ray's tMax are written only on a
   * hit.
   */
  method SphereHit(s: SphereShape, r: Ray, rec: SurfaceInteraction, sqrt: real -> real)
    returns (hit: bool, ray: Ray, out: SurfaceInteraction)
    requires s.radius != 0.0
    ensures HitResult(hit, ray, out) == SphereTrace(s, r, rec, sqrt)
  {
    ray, out := r, rec;
    var oc := Sub(r.o, s.center);
    var a := Dot(r.d, r.d);
    if a == 0.0 {
      return false, ray, out;
    }
    var halfB := Dot(oc, r.d);
    var c := Dot(oc, oc) - s.radius * s.radius;
    var discriminant := halfB * halfB - a * c;
    if discriminant < 0.0 {
      return false, ray, out;
    }
    var sqrtd := sqrt(discriminant);
    assert a == QuadA(r) && halfB == HalfB(s, r) && discriminant == Discriminant(s, r);
    var root := (-halfB - sqrtd) / a;
    if root < r.tMin || !AtMost(root, r.tMax) {
      root := (-halfB + sqrtd) / a;
      if root < r.tMin || !AtMost(root, r.tMax) {
        return false, ray, out;
      }
    }
    assert SphereRoot(s, r, sqrt) == Some(root);
    out := out.(t := root);
    out := out.(p := At(r, out.t));
    var outwardNormal := Scale(1.0 / s.radius, Sub(out.p, s.center));
    out := SetFaceNormal(out, r.d, outwardNormal);
    out := out.(mat := Some(s.material));
    ray := ray.(tMax := Fin(out.t));
    return true, ray, out;
  }

  /** The box [center - radius, center + radius] on every axis. */
  function SphereBounds(s: SphereShape): AABB
  {
    AABB(Sub(s.center, Splat(s.radius)), Add(s.center, Splat(s.radius)))
  }

  /** For a non-negative radius every surface point lies in the bounding box. */
  lemma SphereBoundsContainSurface(s: SphereShape, p: Vec3)
    requires s.radius >= 0.0 && OnSphere(s, p)
    ensures Contains(SphereBounds(s), p)
  {
    var q := Sub(p, s.center);
    SquareBelowSum(q.x, q.y * q.y + q.z * q.z, s.radius);
    SquareBelowSum(q.y, q.x * q.x + q.z * q.z, s.radius);
    SquareBelowSum(q.z, q.x * q.x + q.y * q.y, s.radius);
  }

  /** If x^2 + rest == R^2 with rest >= 0 and R >= 0 then |x| <= R. */
  lemma SquareBelowSum(x: real, rest: real, rad: real)
    requires rad >= 0.0 && rest >= 0.0 && x * x + rest == rad * rad
    ensures -rad <= x <= rad
  {
    if x > rad {
      assert x * x - rad * rad == (x - rad) * (x + rad);
      MulPos(x - rad, x + rad);
    } else if x < -rad {
      assert x * x - rad * rad == (-x - rad) * (-x + rad);
      MulPos(-x - rad, -x + rad);
    }
  }

  /** |o + t d - center|^2 - R^2 is the quadratic a t^2 + 2 halfB t + c. */
  lemma OnSphereIffQuadratic(s: SphereShape, r: Ray, t: real)
    ensures OnSphere(s, At(r, t)) <==>
      QuadA(r) * t * t + 2.0 * HalfB(s, r) * t + QuadC(s, r) == 0.0
  {
    var oc := Sub(r.o, s.center);
    var q := Sub(At(r, t), s.center);
    SphereOffset(s, r, t);
    ShiftedIff(Dot(q, q), Dot(oc, oc), HalfB(s, r), QuadA(r), t, s.radius * s.radius);
  }

  /** The squared distance of the ray point at t from the centre, as a polynomial in t. */
  lemma SphereOffset(s: SphereShape, r: Ray, t: real)
    ensures var q := Sub(At(r, t), s.center);
      Dot(q, q) == Dot(Sub(r.o, s.center), Sub(r.o, s.center)) + 2.0 * t * HalfB(s, r) + t * t * QuadA(r)
  {
    var oc := Sub(r.o, s.center);
    assert Sub(At(r, t), s.center) == Add(oc, Scale(t, r.d));
    DotShifted(oc, r.d, t);
  }

  /** |o + t d|^2 == |o|^2 + 2 t (o . d) + t^2 |d|^2. */
  lemma DotShifted(o: Vec3, d: Vec3, t: real)
    ensures Dot(Add(o, Scale(t, d)), Add(o, Scale(t, d))) == Dot(o, o) + 2.0 * t * Dot(o, d) + t * t * Dot(d, d)
  {
    ShiftedSquare(o.x, o.y, o.z, d.x, d.y, d.z, t);
  }

  /** |o + t d|^2 expanded in coordinates. */
  lemma ShiftedSquare(ox: real, oy: real, oz: real, dx: real, dy: real, dz: real, t: real)
    ensures (ox + t * dx) * (ox + t * dx) + (oy + t * dy) * (oy + t * dy) + (oz + t * dz) * (oz + t * dz)
      == (ox * ox + oy * oy + oz * oz) + 2.0 * t * (ox * dx + oy * dy + oz * dz) + t * t * (dx * dx + dy * dy + dz * dz)
  {
    assert (ox + t * dx) * (ox + t * dx) == ox * ox + 2.0 * t * (ox * dx) + t * t * (dx * dx);
    assert (oy + t * dy) * (oy + t * dy) == oy * oy + 2.0 * t * (oy * dy) + t * t * (dy * dy);
    assert (oz + t * dz) * (oz + t * dz) == oz * oz + 2.0 * t * (oz * dz) + t * t * (dz * dz);
  }

  /** A value c0 + 2 t hb + t^2 a equals rr exactly when a t^2 + 2 hb t + (c0 - rr) vanishes. */
  lemma ShiftedIff(v: real, c0: real, hb: real, a: real, t: real, rr: real)
    requires v == c0 + 2.0 * t * hb + t * t * a
    ensures v == rr <==> a * t * t + 2.0 * hb * t + (c0 - rr) == 0.0
  {
  }

  /** The two quadratic-formula roots are exactly the solutions (half-b form). */
  lemma QuadraticRoots(a: real, hb: real, c: real, sq: real, t: real)
    requires a != 0.0 && sq >= 0.0 && sq * sq == hb * hb - a * c
    ensures a * t * t + 2.0 * hb * t + c == 0.0 <==> (t == (-hb - sq) / a || t == (-hb + sq) / a)
  {
    var y := a * t + hb;
    assert y * y == a * (a * t * t + 2.0 * hb * t + c) + sq * sq by {
      assert y * y == a * a * t * t + 2.0 * a * hb * t + hb * hb;
    }
    assert (y - sq) * (y + sq) == y * y - sq * sq;
    if a * t * t + 2.0 * hb * t + c == 0.0 {
      assert (y - sq) * (y + sq) == 0.0;
      ZeroProduct(y - sq, y + sq);
      if y == sq {
        assert t == (sq - hb) / a;
      } else {
        assert y + sq == 0.0;
        assert t == (-sq - hb) / a;
      }
    }
    if t == (-hb - sq) / a || t == (-hb + sq) / a {
      assert y == -sq || y == sq;
      assert y * y == sq * sq;
      assert a * (a * t * t + 2.0 * hb * t + c) == 0.0;
    }
  }

  /** A real solution forces a non-negative discriminant. */
  lemma QuadraticDiscriminant(a: real, hb: real, c: real, t: real)
    requires a * t * t + 2.0 * hb * t + c == 0.0
    ensures hb * hb - a * c >= 0.0
  {
    var y := a * t + hb;
    assert y * y == a * a * t * t + 2.0 * a * hb * t + hb * hb;
    assert a * (a * t * t + 2.0 * hb * t + c) == 0.0;
    assert y * y == hb * hb - a * c;
  }

  /** The reported parameter is a point of the sphere inside the ray's range. */
  lemma SphereRootSound(s: SphereShape, r: Ray, sqrt: real -> real)
    requires IsSqrt(sqrt) && SphereRoot(s, r, sqrt).Some?
    ensures OnSphere(s, At(r, SphereRoot(s, r, sqrt).value))
  {
    SphereRootSolves(s, r, sqrt);
    SolutionOnSphere(s, r, SphereRoot(s, r, sqrt).value);
  }

  /** A point of the sphere at t solves the quadratic, so the discriminant is non-negative. */
  lemma SurfacePointSolves(s: SphereShape, r: Ray, t: real)
    requires OnSphere(s, At(r, t))
    ensures QuadA(r) * t * t + 2.0 * HalfB(s, r) * t + QuadC(s, r) == 0.0
    ensures Discriminant(s, r) >= 0.0
  {
    OnSphereIffQuadratic(s, r, t);
    QuadraticDiscriminant(QuadA(r), HalfB(s, r), QuadC(s, r), t);
  }

  /** A solution of the quadratic is a point of the sphere. */
  lemma SolutionOnSphere(s: SphereShape, r: Ray, t: real)
    requires QuadA(r) * t * t + 2.0 * HalfB(s, r) * t + QuadC(s, r) == 0.0
    ensures OnSphere(s, At(r, t))
  {
    OnSphereIffQuadratic(s, r, t);
  }

  /** The reported parameter solves the quadratic. */
  lemma SphereRootSolves(s: SphereShape, r: Ray, sqrt: real -> real)
    requires IsSqrt(sqrt) && SphereRoot(s, r, sqrt).Some?
    ensures var t := SphereRoot(s, r, sqrt).value;
      QuadA(r) * t * t + 2.0 * HalfB(s, r) * t + QuadC(s, r) == 0.0
  {
    SqrtOfDiscriminant(s, r, sqrt);
    PickRootSolves(QuadA(r), HalfB(s, r), QuadC(s, r), sqrt(Discriminant(s, r)), r);
  }

  /** Whatever PickRoot keeps solves the quadratic. */
  lemma PickRootSolves(a: real, hb: real, c: real, sq: real, r: Ray)
    requires a != 0.0 && sq >= 0.0 && sq * sq == hb * hb - a * c
    requires PickRoot(a, hb, sq, r).Some?
    ensures var t := PickRoot(a, hb, sq, r).value;
      a * t * t + 2.0 * hb * t + c == 0.0
  {
    QuadraticRoots(a, hb, c, sq, PickRoot(a, hb, sq, r).value);
  }

  /**
   * For a non-zero direction and an exact sqrt the reported parameter is
   * the smallest one in range that lies on the sphere, and a hit is
   * reported whenever some surface point lies in range.
   */
  lemma SphereRootIsNearest(s: SphereShape, r: Ray, sqrt: real -> real, t: real)
    requires IsSqrt(sqrt) && QuadA(r) != 0.0
    requires InRange(t, r) && OnSphere(s, At(r, t))
    ensures SphereRoot(s, r, sqrt).Some? && SphereRoot(s, r, sqrt).value <= t
  {
    SurfacePointSolves(s, r, t);
    SolutionBoundsRoot(s, r, sqrt, t);
  }

  /** A solution in range bounds the reported root from above. */
  lemma SolutionBoundsRoot(s: SphereShape, r: Ray, sqrt: real -> real, t: real)
    requires IsSqrt(sqrt) && QuadA(r) != 0.0 && Discriminant(s, r) >= 0.0 && InRange(t, r)
    requires QuadA(r) * t * t + 2.0 * HalfB(s, r) * t + QuadC(s, r) == 0.0
    ensures SphereRoot(s, r, sqrt).Some? && SphereRoot(s, r, sqrt).value <= t
  {
    SqrtOfDiscriminant(s, r, sqrt);
    QuadAPositive(r);
    PickRootNearest(QuadA(r), HalfB(s, r), QuadC(s, r), sqrt(Discriminant(s, r)), r, t);
  }

  /** A non-zero a = d . d is positive. */
  lemma QuadAPositive(r: Ray)
    requires QuadA(r) != 0.0
    ensures QuadA(r) > 0.0
  {
  }

  /** With an exact sqrt, sqrt(disc) is a non-negative square root of halfB^2 - a c. */
  lemma SqrtOfDiscriminant(s: SphereShape, r: Ray, sqrt: real -> real)
    requires IsSqrt(sqrt) && Discriminant(s, r) >= 0.0
    ensures var sq := sqrt(Discriminant(s, r));
      sq >= 0.0 && sq * sq == HalfB(s, r) * HalfB(s, r) - QuadA(r) * QuadC(s, r)
  {
  }

  /** PickRoot finds a root whenever a solution lies in range, and it is no later than that solution. */
  lemma PickRootNearest(a: real, hb: real, c: real, sq: real, r: Ray, t: real)
    requires a > 0.0 && sq >= 0.0 && sq * sq == hb * hb - a * c
    requires a * t * t + 2.0 * hb * t + c == 0.0 && InRange(t, r)
    ensures PickRoot(a, hb, sq, r).Some? && PickRoot(a, hb, sq, r).value <= t
  {
    QuadraticRoots(a, hb, c, sq, t);
    NearBeforeFar(a, hb, sq);
  }

  /** For a > 0 and sq >= 0 the nearer root does not exceed the farther one. */
  lemma NearBeforeFar(a: real, hb: real, sq: real)
    requires a > 0.0 && sq >= 0.0
    ensures (-hb - sq) / a <= (-hb + sq) / a
  {
    assert (-hb + sq) / a - (-hb - sq) / a == (2.0 * sq) / a;
  }

  /**
   * Shrinking tMax keeps the reported root if it is still in range and
   * otherwise turns the hit into a miss: the property a list or BVH relies
   * on when it passes the shrunk ray to the next object.
   */
  lemma SphereRootShrink(s: SphereShape, r: Ray, tMax: real, sqrt: real -> real)
    requires IsSqrt(sqrt) && AtMost(tMax, r.tMax)
    ensures var res := SphereRoot(s, r, sqrt);
      SphereRoot(s, r.(tMax := Fin(tMax)), sqrt) ==
        (if res.Some? && res.value <= tMax then res else None)
  {
    var r' := r.(tMax := Fin(tMax));
    CoefficientsIgnoreRange(s, r, r');
    if QuadA(r) != 0.0 && Discriminant(s, r) >= 0.0 {
      QuadAPositive(r);
      SqrtOfDiscriminant(s, r, sqrt);
      PickRootShrink(QuadA(r), HalfB(s, r), sqrt(Discriminant(s, r)), r, tMax);
    }
  }

  /** The quadratic depends on the ray's origin and direction only, not on its range. */
  lemma CoefficientsIgnoreRange(s: SphereShape, r: Ray, r': Ray)
    requires r'.o == r.o && r'.d == r.d
    ensures QuadA(r') == QuadA(r) && HalfB(s, r') == HalfB(s, r) && QuadC(s, r') == QuadC(s, r)
    ensures Discriminant(s, r') == Discriminant(s, r)
  {
  }

  /** PickRoot on a ray whose tMax shrank keeps the old root if it is still in range, else none. */
  lemma PickRootShrink(a: real, hb: real, sq: real, r: Ray, tMax: real)
    requires a > 0.0 && sq >= 0.0 && AtMost(tMax, r.tMax)
    ensures var res := PickRoot(a, hb, sq, r);
      PickRoot(a, hb, sq, r.(tMax := Fin(tMax))) ==
        (if res.Some? && res.value <= tMax then res else None)
  {
    NearBeforeFar(a, hb, sq);
  }

  /**
   * On a hit (radius non-zero, exact sqrt) the record holds p = o + t d,
   * a unit normal facing against the ray, the sphere's material, and the
   * caller's remaining fields.
   */
  lemma SphereRecordFacts(s: SphereShape, r: Ray, rec: SurfaceInteraction, sqrt: real -> real)
    requires IsSqrt(sqrt) && s.radius != 0.0 && SphereRoot(s, r, sqrt).Some?
    ensures var out := SphereTrace(s, r, rec, sqrt).rec;
      out.t == SphereRoot(s, r, sqrt).value && out.p == At(r, out.t) &&
      OnSphere(s, out.p) && Dot(out.gn, out.gn) == 1.0 && out.n == out.gn &&
      Dot(r.d, out.gn) <= 0.0 && out.mat == Some(s.material) &&
      out.wo == rec.wo && out.uv == rec.uv && out.dpdu == rec.dpdu && out.dpdv == rec.dpdv
  {
    SphereRootSound(s, r, sqrt);
    RecordAtSurfacePoint(s, r, SphereRoot(s, r, sqrt).value, rec);
  }

  /** The record written for a surface point at t. */
  lemma RecordAtSurfacePoint(s: SphereShape, r: Ray, t: real, rec: SurfaceInteraction)
    requires s.radius != 0.0 && OnSphere(s, At(r, t))
    ensures var out := SphereRecord(s, r, t, rec);
      out.t == t && out.p == At(r, t) &&
      Dot(out.gn, out.gn) == 1.0 && out.n == out.gn &&
      Dot(r.d, out.gn) <= 0.0 && out.mat == Some(s.material) &&
      out.wo == rec.wo && out.uv == rec.uv && out.dpdu == rec.dpdu && out.dpdv == rec.dpdv
  {
    var p := At(r, t);
    ScaledToUnit(Sub(p, s.center), s.radius);
    assert Dot(Neg(OutwardNormal(s, p)), Neg(OutwardNormal(s, p))) == Dot(OutwardNormal(s, p), OutwardNormal(s, p));
  }

  /** A vector of length |R| scaled by 1/R has unit length. */
  lemma ScaledToUnit(q: Vec3, rad: real)
    requires rad != 0.0 && Dot(q, q) == rad * rad
    ensures Dot(Scale(1.0 / rad, q), Scale(1.0 / rad, q)) == 1.0
  {
    var k := 1.0 / rad;
    assert Dot(Scale(k, q), Scale(k, q)) == k * k * Dot(q, q);
    assert k * rad == 1.0;
    assert k * k * (rad * rad) == (k * rad) * (k * rad);
  }
}
