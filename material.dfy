// What every material shares: the BxDF lobe flags, the transport mode, the
// record a successful BSDF sample returns, and the behaviour a material has
// unless it overrides it (no emission, not specular).
module Materials {
  import opened Types

  /** A set of BxDF lobe flags, one bit per lobe kind. */
  type BxDFType = bv8

  const Reflection: BxDFType := 1
  const Transmission: BxDFType := 2
  const Diffuse: BxDFType := 4
  const Glossy: BxDFType := 8
  const Specular: BxDFType := 16
  const All: BxDFType := 0xFF

  /** The five lobe flags, in declaration order. */
  const Lobes: seq<BxDFType> := [Reflection, Transmission, Diffuse, Glossy, Specular]

  /** f has exactly one bit set. */
  predicate SingleBit(f: BxDFType)
  {
    f != 0 && f & (f - 1) == 0
  }

  /**
   * Each lobe flag is a single bit, no two lobes share a bit, and All
   * contains every one of them.
   */
  lemma LobeFlagsDisjoint()
    ensures forall i :: 0 <= i < |Lobes| ==> SingleBit(Lobes[i]) && Lobes[i] & All == Lobes[i]
    ensures forall i, j :: 0 <= i < j < |Lobes| ==> Lobes[i] & Lobes[j] == 0
  {
  }

  /** Radiance or importance transport; only these two exist. */
  datatype TransportMode = Radiance | Importance

  /** A sampled direction with its BSDF value, its density and the lobe it came from. */
  datatype BSDFSample = BSDFSample(f: Spectrum, wi: Vec3, pdf: real, sampledType: BxDFType)

  /**
   * A freshly declared sample: the density starts at 0.  The other members
   * have no initialiser in the source; this model starts them at zero.
   */
  function NewSample(): (s: BSDFSample)
    ensures s.pdf == 0.0 && !IsSpecularSample(s)
  {
    BSDFSample(Black, Black, 0.0, 0)
  }

  /** isSpecular: the SPECULAR bit of the sampled lobe is set. */
  predicate IsSpecularSample(s: BSDFSample)
  {
    s.sampledType & Specular != 0
  }

  /** Sampled with a diffuse reflection lobe, a sample is not specular; with a specular one it is. */
  lemma LobeSpecularity(f: Spectrum, wi: Vec3, pdf: real)
    ensures !IsSpecularSample(BSDFSample(f, wi, pdf, Diffuse | Reflection))
    ensures IsSpecularSample(BSDFSample(f, wi, pdf, Specular | Reflection))
  {
  }

  /** The emission a material has unless it overrides it: none. */
  function DefaultEmitted(): (le: Spectrum)
    ensures le.x == 0.0 && le.y == 0.0 && le.z == 0.0
  {
    Black
  }

  /** Materials are not specular unless they say so. */
  const DefaultIsSpecular: bool := false
}
