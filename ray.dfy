// Rays: origin, direction and the valid parameter interval [tMin, tMax];
// the point at a parameter; the offset ray spawned from a surface point;
// and the ray differential record with its in-place scaling.
module Rays {
  import opened Types

  /** A ray o + t d, valid for t in [tMin, tMax]; tMax may be +infinity. */
  datatype Ray = Ray(o: Vec3, d: Vec3, tMin: real, tMax: Ext)

  /** Default ray: origin 0, direction +z, tMin = epsilon, unbounded. */
  function DefaultRay(): (r: Ray)
    ensures r.o == Black && r.d == Vec3(0.0, 0.0, 1.0)
    ensures r.tMin == RayEpsilon && r.tMax == Inf
  {
    Ray(Black, Vec3(0.0, 0.0, 1.0), RayEpsilon, Inf)
  }

  /** Primary constructor: tMin defaults to epsilon, tMax is always +infinity. */
  function MakeRay(o: Vec3, d: Vec3, tMin: real := RayEpsilon): (r: Ray)
    ensures r.o == o && r.d == d && r.tMin == tMin && r.tMax == Inf
  {
    Ray(o, d, tMin, Inf)
  }

  /** The point o + t d. */
  function At(r: Ray, t: real): Vec3
  {
    Add(r.o, Scale(t, r.d))
  }

  /** Points along the ray differ by a multiple of the direction. */
  lemma AtDifference(r: Ray, t1: real, t2: real)
    ensures Sub(At(r, t1), At(r, t2)) == Scale(t1 - t2, r.d)
    ensures At(r, 0.0) == r.o
  {
  }

  /** The ray leaving p along wi, offset by epsilon to the side of n that wi points into. */
  function SpawnRay(p: Vec3, n: Vec3, wi: Vec3): (r: Ray)
    ensures r.d == wi && r.tMin == RayEpsilon && r.tMax == Inf
    ensures Dot(n, wi) > 0.0 ==> r.o == Add(p, Scale(RayEpsilon, n))
    ensures Dot(n, wi) <= 0.0 ==> r.o == Add(p, Scale(RayEpsilon, Neg(n)))
  {
    var offset := if Dot(n, wi) > 0.0 then n else Neg(n);
    MakeRay(Add(p, Scale(RayEpsilon, offset)), wi, RayEpsilon)
  }

  /** For unit n the origin moves exactly epsilon along n, toward wi's hemisphere. */
  lemma SpawnRayOffset(p: Vec3, n: Vec3, wi: Vec3)
    requires Dot(n, n) == 1.0
    ensures Dot(Sub(SpawnRay(p, n, wi).o, p), n) == (if Dot(n, wi) > 0.0 then RayEpsilon else -RayEpsilon)
  {
    var r := SpawnRay(p, n, wi);
    if Dot(n, wi) > 0.0 {
      assert Sub(r.o, p) == Scale(RayEpsilon, n);
      assert Dot(Scale(RayEpsilon, n), n) == RayEpsilon * Dot(n, n);
    } else {
      assert Sub(r.o, p) == Scale(-RayEpsilon, n);
      assert Dot(Scale(-RayEpsilon, n), n) == -RayEpsilon * Dot(n, n);
    }
  }

  /** A ray with auxiliary rays for the neighbouring pixels. */
  class RayDifferential {
    var ray: Ray
    var hasDifferentials: bool
    var rxOrigin: Vec3
    var ryOrigin: Vec3
    var rxDirection: Vec3
    var ryDirection: Vec3

    /** The default ray with no differentials. */
    constructor Default()
      ensures ray == DefaultRay() && !hasDifferentials
      ensures rxOrigin == Black && ryOrigin == Black && rxDirection == Black && ryDirection == Black
    {
      ray := DefaultRay();
      hasDifferentials := false;
      rxOrigin, ryOrigin, rxDirection, ryDirection := Black, Black, Black, Black;
    }

    /** Built from an origin and direction: differentials are cleared. */
    constructor FromOriginDirection(o: Vec3, d: Vec3, tMin: real := RayEpsilon)
      ensures ray == MakeRay(o, d, tMin) && !hasDifferentials
      ensures rxOrigin == Black && ryOrigin == Black && rxDirection == Black && ryDirection == Black
    {
      ray := MakeRay(o, d, tMin);
      hasDifferentials := false;
      rxOrigin, ryOrigin, rxDirection, ryDirection := Black, Black, Black, Black;
    }

    /** Converted from a plain ray: differentials are cleared. */
    constructor FromRay(r: Ray)
      ensures ray == r && !hasDifferentials
      ensures rxOrigin == Black && ryOrigin == Black && rxDirection == Black && ryDirection == Black
    {
      ray := r;
      hasDifferentials := false;
      rxOrigin, ryOrigin, rxDirection, ryDirection := Black, Black, Black, Black;
    }

    /** Moves each auxiliary origin/direction toward (s < 1) or away from (s > 1) the main ray. */
    method ScaleDifferentials(s: real)
      modifies this
      ensures ray == old(ray) && hasDifferentials == old(hasDifferentials)
      ensures !old(hasDifferentials) ==> unchanged(this)
      ensures old(hasDifferentials) ==>
        rxOrigin == Add(ray.o, Scale(s, Sub(old(rxOrigin), ray.o))) &&
        ryOrigin == Add(ray.o, Scale(s, Sub(old(ryOrigin), ray.o))) &&
        rxDirection == Add(ray.d, Scale(s, Sub(old(rxDirection), ray.d))) &&
        ryDirection == Add(ray.d, Scale(s, Sub(old(ryDirection), ray.d)))
      ensures s == 1.0 ==> unchanged(this)
    {
      if !hasDifferentials {
        return;
      }
      rxOrigin := Add(ray.o, Scale(s, Sub(rxOrigin, ray.o)));
      ryOrigin := Add(ray.o, Scale(s, Sub(ryOrigin, ray.o)));
      rxDirection := Add(ray.d, Scale(s, Sub(rxDirection, ray.d)));
      ryDirection := Add(ray.d, Scale(s, Sub(ryDirection, ray.d)));
    }
  }
}
