// The ideal diffuse (Lambertian) reflector: constant BSDF albedo / pi on the
// side of the shading normal, cosine-weighted density, and a sampler that
// maps a cosine-distributed local direction into the world.
module Lambertian {
  import opened Types
  import opened SpectrumUtils
  import opened Interaction
  import opened Materials
  import Frame

  /** albedo / pi, component by component. */
  function DiffuseValue(albedo: Spectrum): Spectrum
  {
    Vec3(albedo.x / Pi, albedo.y / Pi, albedo.z / Pi)
  }

  /** eval: black when wi is not above the shading normal, albedo / pi otherwise. */
  function Eval(albedo: Spectrum, rec: SurfaceInteraction, wo: Vec3, wi: Vec3, mode: TransportMode): (f: Spectrum)
    ensures Dot(rec.n, wi) <= 0.0 ==> f == Black
    ensures Dot(rec.n, wi) > 0.0 ==> f == DiffuseValue(albedo)
  {
    var cosTheta := Dot(rec.n, wi);
    if cosTheta <= 0.0 then Black else Scale(1.0 / Pi, albedo)
  }

  /** pdf: 0 when wi is not above the shading normal, cos / pi otherwise; never negative. */
  function Pdf(rec: SurfaceInteraction, wo: Vec3, wi: Vec3): (p: real)
    ensures p >= 0.0
    ensures p > 0.0 <==> Dot(rec.n, wi) > 0.0
  {
    var cosTheta := Dot(rec.n, wi);
    if cosTheta <= 0.0 then 0.0 else cosTheta * (1.0 / Pi)
  }

  /**
   * Where the cosine is positive the Monte Carlo weight eval * cos / pdf is
   * exactly the albedo; the outgoing direction and the geometric normal play
   * no part in either value.
   */
  lemma EstimatorIsAlbedo(albedo: Spectrum, rec: SurfaceInteraction, wo: Vec3, wi: Vec3, mode: TransportMode)
    requires Dot(rec.n, wi) > 0.0
    ensures var c := Dot(rec.n, wi);
      Scale(c / Pdf(rec, wo, wi), Eval(albedo, rec, wo, wi, mode)) == albedo
    ensures forall wo2: Vec3, gn: Vec3 {:trigger Eval(albedo, rec.(gn := gn), wo2, wi, mode)} ::
      Eval(albedo, rec.(gn := gn), wo2, wi, mode) == Eval(albedo, rec, wo, wi, mode) &&
      Pdf(rec.(gn := gn), wo2, wi) == Pdf(rec, wo, wi)
  {
    var c := Dot(rec.n, wi);
    var p := Pdf(rec, wo, wi);
    assert c == Pi * p;
    assert p > 0.0;
    assert c / p == (Pi * p) / p == Pi;
    var f := Eval(albedo, rec, wo, wi, mode);
    assert f == Vec3(albedo.x / Pi, albedo.y / Pi, albedo.z / Pi);
    assert Pi * (albedo.x / Pi) == albedo.x;
    assert Pi * (albedo.y / Pi) == albedo.y;
    assert Pi * (albedo.z / Pi) == albedo.z;
    forall wo2: Vec3, gn: Vec3
      ensures Eval(albedo, rec.(gn := gn), wo2, wi, mode) == f
      ensures Pdf(rec.(gn := gn), wo2, wi) == p
    {
      assert rec.(gn := gn).n == rec.n;
    }
  }

  /**
   * sample: localDir is the cosine-distributed direction drawn for u (the
   * random draw itself is outside this model).  It is taken to the world
   * through the basis built on the shading normal; a direction that ends up
   * at or below the surface yields no sample.
   */
  function Sample(albedo: Spectrum, rec: SurfaceInteraction, wo: Vec3, localDir: Vec3, mode: TransportMode,
                  sqrt: real -> real): (res: Option<BSDFSample>)
    requires IsSqrt(sqrt) && Dot(rec.n, rec.n) > 0.0
    ensures res.None? <==> Dot(rec.n, Frame.LocalToWorld(rec.n, localDir, sqrt)) <= 0.0
    ensures res.Some? ==> res.value.wi == Frame.LocalToWorld(rec.n, localDir, sqrt)
    ensures res.Some? ==> res.value.f == DiffuseValue(albedo) && res.value.pdf == localDir.z / Pi
    ensures res.Some? ==> res.value.sampledType == Diffuse | Reflection && !IsSpecularSample(res.value)
  {
    var wi := Frame.LocalToWorld(rec.n, localDir, sqrt);
    if Dot(rec.n, wi) <= 0.0 then None
    else Some(BSDFSample(DiffuseValue(albedo), wi, localDir.z / Pi, Diffuse | Reflection))
  }

  /**
   * For a unit shading normal the sampler succeeds exactly for local
   * directions in the upper hemisphere, and what it returns agrees with
   * eval and pdf in the sampled direction.
   */
  lemma SampleMatchesEvalAndPdf(albedo: Spectrum, rec: SurfaceInteraction, wo: Vec3, localDir: Vec3,
                                mode: TransportMode, sqrt: real -> real)
    requires IsSqrt(sqrt) && Dot(rec.n, rec.n) == 1.0
    ensures Sample(albedo, rec, wo, localDir, mode, sqrt).Some? <==> localDir.z > 0.0
    ensures var res := Sample(albedo, rec, wo, localDir, mode, sqrt);
      res.Some? ==> res.value.f == Eval(albedo, rec, wo, res.value.wi, mode) &&
                    res.value.pdf == Pdf(rec, wo, res.value.wi)
  {
    Frame.LocalToWorldFrame(rec.n, localDir, sqrt);
    NormalizeUnit(rec.n, sqrt);
    var wi := Frame.LocalToWorld(rec.n, localDir, sqrt);
    var nn := Normalize(rec.n, sqrt);
    assert Dot(wi, nn) == localDir.z;
    DotSymmetric(wi, nn);
    assert Dot(rec.n, wi) == localDir.z;
    assert localDir.z * (1.0 / Pi) == localDir.z / Pi;
  }

  lemma DotSymmetric(a: Vec3, b: Vec3)
    ensures Dot(a, b) == Dot(b, a)
  {
  }
}
