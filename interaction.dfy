// The surface interaction record filled in by intersection routines.  It is
// a plain value: callers copy it (a list's closest hit is `rec = tempRec`),
// so the in-place field assignments of setFaceNormal are modelled as a
// record update.  The material pointer becomes an index into the scene's
// material table (None is the null pointer).
module Interaction {
  import opened Types
  import opened Rays

  datatype SurfaceInteraction = SurfaceInteraction(
    p: Vec3,
    n: Vec3,
    wo: Vec3,
    uv: Point2,
    t: real,
    mat: Option<nat>,
    dpdu: Vec3,
    dpdv: Vec3,
    gn: Vec3)

  /** A default-constructed record: zero vectors and no material. */
  const EmptyInteraction: SurfaceInteraction :=
    SurfaceInteraction(Black, Black, Black, Point2(0.0, 0.0), 0.0, None, Black, Black, Black)

  /**
   * Orients the geometric normal against the incoming ray direction and
   * copies it into the shading normal; nothing else changes.
   */
  function SetFaceNormal(si: SurfaceInteraction, rayDir: Vec3, geometricNormal: Vec3): (r: SurfaceInteraction)
    ensures Dot(rayDir, geometricNormal) < 0.0 ==> r.gn == geometricNormal
    ensures Dot(rayDir, geometricNormal) >= 0.0 ==> r.gn == Neg(geometricNormal)
    ensures Dot(rayDir, r.gn) <= 0.0
    ensures r.n == r.gn
    ensures r == si.(n := r.gn, gn := r.gn)
  {
    var frontFace := Dot(rayDir, geometricNormal) < 0.0;
    var g := if frontFace then geometricNormal else Neg(geometricNormal);
    si.(gn := g, n := g)
  }

  /**
   * What a hittable's hit call leaves behind: the boolean it returns, the
   * ray with its (possibly shrunk) tMax, and the caller's record.
   */
  datatype HitResult = HitResult(hit: bool, ray: Ray, rec: SurfaceInteraction)
}
