// An area light's surface: it reflects nothing (black BSDF, zero density,
// no samples) and emits its colour only towards the front of its shading
// normal.
module DiffuseLight {
  import opened Types
  import opened Interaction
  import opened Materials

  /** eval: the light absorbs everything it receives. */
  function Eval(emit: Spectrum, rec: SurfaceInteraction, wo: Vec3, wi: Vec3, mode: TransportMode): (f: Spectrum)
    ensures f.x == 0.0 && f.y == 0.0 && f.z == 0.0
  {
    Black
  }

  /** sample: there is no reflected direction to draw. */
  function Sample(emit: Spectrum, rec: SurfaceInteraction, wo: Vec3, u: Point2, mode: TransportMode): (res: Option<BSDFSample>)
    ensures res.None?
  {
    None
  }

  /** pdf: zero for every direction. */
  function Pdf(rec: SurfaceInteraction, wo: Vec3, wi: Vec3): (p: real)
    ensures p == 0.0
  {
    0.0
  }

  /** emitted: the light's colour when seen from the front of n, black from behind. */
  function Emitted(emit: Spectrum, rec: SurfaceInteraction, wo: Vec3): (le: Spectrum)
    ensures Dot(rec.n, wo) > 0.0 ==> le == emit
    ensures Dot(rec.n, wo) <= 0.0 ==> le == Black
  {
    if Dot(rec.n, wo) > 0.0 then emit else Black
  }

  /**
   * Only the side wo lies on matters: scaling wo by a positive factor does
   * not change the emission, and the opposite direction sees black wherever
   * this one sees the light.
   */
  lemma EmissionIsOneSided(emit: Spectrum, rec: SurfaceInteraction, wo: Vec3, k: real)
    requires k > 0.0
    ensures Emitted(emit, rec, Scale(k, wo)) == Emitted(emit, rec, wo)
    ensures Dot(rec.n, wo) > 0.0 ==> Emitted(emit, rec, Neg(wo)) == Black
  {
    assert Dot(rec.n, Scale(k, wo)) == k * Dot(rec.n, wo);
    var d := Dot(rec.n, wo);
    if d > 0.0 {
      assert k * d > 0.0;
    } else {
      assert k * d <= 0.0 by { assert k * (-d) >= 0.0; }
    }
  }
}
