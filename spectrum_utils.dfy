// Spectrum helpers: the "contributes no energy" test and the clamp of a
// spectrum to non-negative values.  Spectra are finite here (reals), so the
// NaN/infinity branch of Sanitize has no counterpart.
module SpectrumUtils {
  import opened Types

  /** No component carries energy: every component is <= 0 (negative counts as black). */
  predicate IsBlack(s: Spectrum)
  {
    s.x <= 0.0 && s.y <= 0.0 && s.z <= 0.0
  }

  /** Every component is >= 0. */
  predicate NonNegative(s: Spectrum)
  {
    s.x >= 0.0 && s.y >= 0.0 && s.z >= 0.0
  }

  /** Component-wise max(s, 0) of a finite spectrum. */
  function Sanitize(s: Spectrum): (r: Spectrum)
    ensures NonNegative(r)
    ensures r.x == (if s.x > 0.0 then s.x else 0.0)
    ensures r.y == (if s.y > 0.0 then s.y else 0.0)
    ensures r.z == (if s.z > 0.0 then s.z else 0.0)
  {
    MaxV(s, Black)
  }

  /** Sanitize is the identity on non-negative spectra, hence idempotent. */
  lemma SanitizeIdentity(s: Spectrum)
    ensures NonNegative(s) ==> Sanitize(s) == s
    ensures Sanitize(Sanitize(s)) == Sanitize(s)
  {
  }

  /** Sanitising neither creates nor removes energy in the IsBlack sense. */
  lemma SanitizeKeepsBlackness(s: Spectrum)
    ensures IsBlack(Sanitize(s)) <==> IsBlack(s)
  {
  }
}
