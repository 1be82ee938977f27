// The perfect mirror: a delta BSDF that is black and has zero density for
// every direction given to it, and whose sampler always returns the mirror
// reflection of the outgoing direction with the albedo as its weight.
module Mirror {
  import opened Types
  import opened RtMath
  import opened Interaction
  import opened Materials

  /** Untinted mirror albedo (1, 1, 1). */
  const DefaultAlbedo: Spectrum := Vec3(1.0, 1.0, 1.0)

  /** eval: a delta lobe has no value in any given direction. */
  function Eval(albedo: Spectrum, rec: SurfaceInteraction, wo: Vec3, wi: Vec3, mode: TransportMode): (f: Spectrum)
    ensures f.x == 0.0 && f.y == 0.0 && f.z == 0.0
  {
    Black
  }

  /** pdf: a delta lobe has zero density in any given direction. */
  function Pdf(rec: SurfaceInteraction, wo: Vec3, wi: Vec3): (p: real)
    ensures p == 0.0
  {
    0.0
  }

  /**
   * sample: always succeeds with wi the reflection of -wo about the shading
   * normal, the albedo as weight, a dummy density of 1 and the flags
   * SPECULAR | REFLECTION.
   */
  function Sample(albedo: Spectrum, rec: SurfaceInteraction, wo: Vec3, u: Point2, mode: TransportMode): (res: Option<BSDFSample>)
    ensures res.Some?
    ensures res.value.f == albedo && res.value.pdf == 1.0
    ensures res.value.sampledType == Specular | Reflection && IsSpecularSample(res.value)
  {
    Some(BSDFSample(albedo, ReflectOutward(wo, rec.n), 1.0, Specular | Reflection))
  }

  /**
   * The sampled direction is glm::reflect(-wo, n); for a unit normal it
   * leaves the surface at the angle wo arrived and keeps wo's length.
   */
  lemma SampleReflects(albedo: Spectrum, rec: SurfaceInteraction, wo: Vec3, u: Point2, mode: TransportMode)
    requires Dot(rec.n, rec.n) == 1.0
    ensures var wi := Sample(albedo, rec, wo, u, mode).value.wi;
      wi == Sub(Neg(wo), Scale(2.0 * Dot(Neg(wo), rec.n), rec.n)) &&
      Dot(wi, rec.n) == Dot(wo, rec.n) && Dot(wi, wi) == Dot(wo, wo)
  {
    ReflectOutwardGeometry(wo, rec.n);
  }
}
