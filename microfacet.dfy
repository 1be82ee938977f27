// The shared part of a microfacet normal distribution: the clamped
// anisotropic roughness, Smith's masking-shadowing terms G and G1 written
// over the distribution's own lambda, and the roughness-to-alpha mapping.
// The concrete lambda (GGX) is a parameter of this model.
module Microfacet {
  import opened Types
  import opened RtMath

  /** Smallest roughness a distribution stores along either tangent axis. */
  const MinAlpha: real := 0.0001

  datatype MicrofacetDistribution = MicrofacetDistribution(alphaX: real, alphaY: real)

  /** The constructor: each roughness is raised to at least MinAlpha. */
  function NewDistribution(ax: real, ay: real): (d: MicrofacetDistribution)
    ensures d.alphaX >= MinAlpha && d.alphaY >= MinAlpha
    ensures ax >= MinAlpha ==> d.alphaX == ax
    ensures ay >= MinAlpha ==> d.alphaY == ay
    ensures ax < MinAlpha ==> d.alphaX == MinAlpha
    ensures ay < MinAlpha ==> d.alphaY == MinAlpha
  {
    MicrofacetDistribution(Max(MinAlpha, ax), Max(MinAlpha, ay))
  }

  /** Smith's separable masking-shadowing term 1 / (1 + lambda(wo) + lambda(wi)). */
  function G(wo: Vec3, wi: Vec3, lambda: Vec3 -> real): real
    requires 1.0 + lambda(wo) + lambda(wi) != 0.0
  {
    1.0 / (1.0 + lambda(wo) + lambda(wi))
  }

  /** The single-direction masking term 1 / (1 + lambda(w)). */
  function G1(w: Vec3, lambda: Vec3 -> real): real
    requires 1.0 + lambda(w) != 0.0
  {
    1.0 / (1.0 + lambda(w))
  }

  /** Taking reciprocals reverses the order of positive numbers. */
  lemma ReciprocalAntitone(x: real, y: real)
    requires 0.0 < x <= y
    ensures 0.0 < 1.0 / y <= 1.0 / x
  {
    var ix, iy := 1.0 / x, 1.0 / y;
    assert ix * x == 1.0 && iy * y == 1.0;
    assert ix - iy == (y - x) * (ix * iy);
    MulNonNeg(y - x, ix * iy);
  }

  /**
   * For non-negative lambda values G is a visibility probability that can
   * never exceed either single-direction term, each of which is at most 1.
   */
  lemma MaskingBounds(wo: Vec3, wi: Vec3, lambda: Vec3 -> real)
    requires lambda(wo) >= 0.0 && lambda(wi) >= 0.0
    ensures 0.0 < G(wo, wi, lambda)
    ensures G(wo, wi, lambda) <= Min(G1(wo, lambda), G1(wi, lambda))
    ensures Min(G1(wo, lambda), G1(wi, lambda)) <= 1.0
  {
    ReciprocalAntitone(1.0 + lambda(wo), 1.0 + lambda(wo) + lambda(wi));
    ReciprocalAntitone(1.0 + lambda(wi), 1.0 + lambda(wo) + lambda(wi));
    ReciprocalAntitone(1.0, 1.0 + lambda(wo));
    ReciprocalAntitone(1.0, 1.0 + lambda(wi));
  }

  const MinRoughness: real := 0.001

  /** roughnessToAlpha: clamp the roughness to [0.001, 1], then square it. */
  function RoughnessToAlpha(roughness: real): (alpha: real)
    ensures MinRoughness * MinRoughness <= alpha <= 1.0
  {
    var r := ClampR(roughness, MinRoughness, 1.0);
    SquareMonotone(MinRoughness, r);
    SquareMonotone(r, 1.0);
    r * r
  }

  /** Squaring is monotone on non-negative reals. */
  lemma SquareMonotone(a: real, b: real)
    requires 0.0 <= a <= b
    ensures a * a <= b * b
  {
    assert a * a <= a * b;
    assert a * b <= b * b;
  }

  /** A rougher surface never gets a smaller alpha. */
  lemma RoughnessToAlphaMonotone(r1: real, r2: real)
    requires r1 <= r2
    ensures RoughnessToAlpha(r1) <= RoughnessToAlpha(r2)
  {
    SquareMonotone(ClampR(r1, MinRoughness, 1.0), ClampR(r2, MinRoughness, 1.0));
  }

  /** Inside the clamp range the mapping is exactly roughness squared. */
  lemma RoughnessToAlphaInRange(roughness: real)
    requires MinRoughness <= roughness <= 1.0
    ensures RoughnessToAlpha(roughness) == roughness * roughness
  {
  }
}
