// The materials of a scene as one closed family, and the virtual calls the
// integrator makes on them: eval, sample, pdf, emitted and isSpecular.
// Materials that only override eval, sample and pdf keep the defaults for
// emitted (black) and isSpecular (false); the mirror is one of them.
module Shading {
  import opened Types
  import opened Interaction
  import opened Materials
  import Lambertian
  import Mirror
  import DiffuseLight

  datatype Material =
    | LambertianMat(albedo: Spectrum)
    | MirrorMat(tint: Spectrum)
    | DiffuseLightMat(emit: Spectrum)

  function Eval(m: Material, rec: SurfaceInteraction, wo: Vec3, wi: Vec3, mode: TransportMode): Spectrum
  {
    match m
    case LambertianMat(a) => Lambertian.Eval(a, rec, wo, wi, mode)
    case MirrorMat(a) => Mirror.Eval(a, rec, wo, wi, mode)
    case DiffuseLightMat(e) => DiffuseLight.Eval(e, rec, wo, wi, mode)
  }

  function Pdf(m: Material, rec: SurfaceInteraction, wo: Vec3, wi: Vec3): real
  {
    match m
    case LambertianMat(_) => Lambertian.Pdf(rec, wo, wi)
    case MirrorMat(_) => Mirror.Pdf(rec, wo, wi)
    case DiffuseLightMat(_) => DiffuseLight.Pdf(rec, wo, wi)
  }

  /**
   * sample for the random pair u; cosineDir stands for the cosine-weighted
   * hemisphere sampler the diffuse material draws its local direction from.
   */
  function Sample(m: Material, rec: SurfaceInteraction, wo: Vec3, u: Point2, mode: TransportMode,
                  cosineDir: Point2 -> Vec3, sqrt: real -> real): Option<BSDFSample>
    requires IsSqrt(sqrt)
    requires m.LambertianMat? ==> Dot(rec.n, rec.n) > 0.0
  {
    match m
    case LambertianMat(a) => Lambertian.Sample(a, rec, wo, cosineDir(u), mode, sqrt)
    case MirrorMat(a) => Mirror.Sample(a, rec, wo, u, mode)
    case DiffuseLightMat(e) => DiffuseLight.Sample(e, rec, wo, u, mode)
  }

  function Emitted(m: Material, rec: SurfaceInteraction, wo: Vec3): Spectrum
  {
    match m
    case DiffuseLightMat(e) => DiffuseLight.Emitted(e, rec, wo)
    case _ => DefaultEmitted()
  }

  /** No material of this family overrides isSpecular. */
  function IsSpecular(m: Material): bool
  {
    DefaultIsSpecular
  }

  /**
   * Only lights emit; only the diffuse material has a density in a given
   * direction; the light never produces a sample while the mirror always
   * does, and a mirror sample is specular even though the mirror material
   * does not report itself as specular.
   */
  lemma MaterialRoles(m: Material, rec: SurfaceInteraction, wo: Vec3, wi: Vec3, u: Point2, mode: TransportMode,
                      cosineDir: Point2 -> Vec3, sqrt: real -> real)
    requires IsSqrt(sqrt)
    requires m.LambertianMat? ==> Dot(rec.n, rec.n) > 0.0
    ensures !m.DiffuseLightMat? ==> Emitted(m, rec, wo) == Black
    ensures !m.LambertianMat? ==> Pdf(m, rec, wo, wi) == 0.0 && Eval(m, rec, wo, wi, mode) == Black
    ensures m.DiffuseLightMat? ==> Sample(m, rec, wo, u, mode, cosineDir, sqrt).None?
    ensures m.MirrorMat? ==>
      Sample(m, rec, wo, u, mode, cosineDir, sqrt).Some? &&
      IsSpecularSample(Sample(m, rec, wo, u, mode, cosineDir, sqrt).value) && !IsSpecular(m)
    ensures Pdf(m, rec, wo, wi) >= 0.0
  {
  }
}
