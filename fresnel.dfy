// Fresnel reflectance of a dielectric interface for unpolarised light:
// Snell's law decides total internal reflection, otherwise the mean of the
// squared parallel and perpendicular amplitude ratios.
module Fresnel {
  import opened Types
  import opened RtMath

  /** sin(theta_i) from the clamped cosine: sqrt(max(0, 1 - cos^2)). */
  function SinThetaI(cosThetaI: real, sqrt: real -> real): real
  {
    var c := Saturate(cosThetaI);
    SafeSqrt(1.0 - c * c, sqrt)
  }

  /** Snell's law: sin(theta_t) = (etaI / etaT) sin(theta_i). */
  function SinThetaT(cosThetaI: real, etaI: real, etaT: real, sqrt: real -> real): real
    requires etaT != 0.0
  {
    (etaI / etaT) * SinThetaI(cosThetaI, sqrt)
  }

  /** (p - q) / (p + q), one reflected amplitude ratio. */
  function Ratio(p: real, q: real): real
    requires p + q != 0.0
  {
    (p - q) / (p + q)
  }

  /** x has the sign of z when x * y == z for a positive y. */
  lemma SignOfQuotient(x: real, y: real, z: real)
    requires y > 0.0 && x * y == z
    ensures x >= 0.0 <==> z >= 0.0
    ensures x == 0.0 <==> z == 0.0
  {
    if x < 0.0 {
      assert (-x) * y > 0.0;
    } else if x > 0.0 {
      assert x * y > 0.0;
    }
  }

  /** For non-negative p and q, the squared ratio is at most 1, and is 1 exactly when one of them is 0. */
  lemma RatioSquare(p: real, q: real)
    requires p >= 0.0 && q >= 0.0 && p + q > 0.0
    ensures 0.0 <= Ratio(p, q) * Ratio(p, q) <= 1.0
    ensures Ratio(p, q) * Ratio(p, q) == 1.0 <==> p == 0.0 || q == 0.0
  {
    var r := Ratio(p, q);
    var d := p + q;
    assert r * d == p - q;
    assert (1.0 - r) * d == 2.0 * q;
    assert (1.0 + r) * d == 2.0 * p;
    SignOfQuotient(1.0 - r, d, 2.0 * q);
    SignOfQuotient(1.0 + r, d, 2.0 * p);
    assert 1.0 - r * r == (1.0 - r) * (1.0 + r);
    MulNonNeg(1.0 - r, 1.0 + r);
    if p > 0.0 && q > 0.0 {
      MulPos(1.0 - r, 1.0 + r);
    }
    assert r * r >= 0.0 by {
      if r < 0.0 {
        MulNonNeg(-r, -r);
      } else {
        MulNonNeg(r, r);
      }
    }
  }

  /** The mean of the squared parallel and perpendicular amplitude ratios. */
  function Reflectance(c: real, cosT: real, etaI: real, etaT: real): real
    requires c >= 0.0 && cosT > 0.0 && etaI > 0.0 && etaT > 0.0
  {
    MulNonNeg(etaT, c);
    MulNonNeg(etaI, c);
    var rParl := Ratio(etaT * c, etaI * cosT);
    var rPerp := Ratio(etaI * c, etaT * cosT);
    (rParl * rParl + rPerp * rPerp) * 0.5
  }

  /** The reflectance lies in [0, 1] and is 1 exactly at grazing incidence. */
  lemma ReflectanceBounds(c: real, cosT: real, etaI: real, etaT: real)
    requires c >= 0.0 && cosT > 0.0 && etaI > 0.0 && etaT > 0.0
    ensures 0.0 <= Reflectance(c, cosT, etaI, etaT) <= 1.0
    ensures Reflectance(c, cosT, etaI, etaT) == 1.0 <==> c == 0.0
  {
    MulNonNeg(etaT, c);
    MulNonNeg(etaI, c);
    assert etaI * cosT > 0.0 && etaT * cosT > 0.0;
    RatioSquare(etaT * c, etaI * cosT);
    RatioSquare(etaI * c, etaT * cosT);
    if c > 0.0 {
      assert etaT * c > 0.0 && etaI * c > 0.0;
    }
  }

  /** cos(theta_t) from sin(theta_t): sqrt(max(0, 1 - sin^2)). */
  function CosThetaT(sinT: real, sqrt: real -> real): real
  {
    SafeSqrt(1.0 - sinT * sinT, sqrt)
  }

  /** Below total internal reflection the transmitted cosine is positive. */
  lemma CosThetaTPositive(sinT: real, sqrt: real -> real)
    requires IsSqrt(sqrt) && 0.0 <= sinT < 1.0
    ensures CosThetaT(sinT, sqrt) > 0.0
  {
    assert sinT * sinT <= sinT * 1.0;
    SqrtPositive(sqrt, 1.0 - sinT * sinT);
  }

  /** For positive indices sin(theta_t) is non-negative. */
  lemma SinThetaTNonNeg(cosThetaI: real, etaI: real, etaT: real, sqrt: real -> real)
    requires IsSqrt(sqrt) && etaI > 0.0 && etaT > 0.0
    ensures SinThetaT(cosThetaI, etaI, etaT, sqrt) >= 0.0
  {
    MulNonNeg(etaI / etaT, SinThetaI(cosThetaI, sqrt));
  }

  /**
   * fresnelDielectric: 1 under total internal reflection (sin(theta_t) >= 1),
   * otherwise the reflectance for the clamped incident cosine.
   */
  function FresnelDielectric(cosThetaI: real, etaI: real, etaT: real, sqrt: real -> real): real
    requires IsSqrt(sqrt) && etaI > 0.0 && etaT > 0.0
  {
    var sinT := SinThetaT(cosThetaI, etaI, etaT, sqrt);
    if sinT >= 1.0 then 1.0
    else
      SinThetaTNonNeg(cosThetaI, etaI, etaT, sqrt);
      CosThetaTPositive(sinT, sqrt);
      Reflectance(Saturate(cosThetaI), CosThetaT(sinT, sqrt), etaI, etaT)
  }

  /** The reflectance is a probability: it lies in [0, 1]. */
  lemma FresnelInUnitInterval(cosThetaI: real, etaI: real, etaT: real, sqrt: real -> real)
    requires IsSqrt(sqrt) && etaI > 0.0 && etaT > 0.0
    ensures 0.0 <= FresnelDielectric(cosThetaI, etaI, etaT, sqrt) <= 1.0
  {
    var sinT := SinThetaT(cosThetaI, etaI, etaT, sqrt);
    if sinT < 1.0 {
      SinThetaTNonNeg(cosThetaI, etaI, etaT, sqrt);
      CosThetaTPositive(sinT, sqrt);
      ReflectanceBounds(Saturate(cosThetaI), CosThetaT(sinT, sqrt), etaI, etaT);
    }
  }

  /**
   * All light is reflected exactly under total internal reflection or at
   * grazing incidence (clamped cosine 0).
   */
  lemma FresnelFullReflection(cosThetaI: real, etaI: real, etaT: real, sqrt: real -> real)
    requires IsSqrt(sqrt) && etaI > 0.0 && etaT > 0.0
    ensures FresnelDielectric(cosThetaI, etaI, etaT, sqrt) == 1.0 <==>
      SinThetaT(cosThetaI, etaI, etaT, sqrt) >= 1.0 || Saturate(cosThetaI) == 0.0
  {
    var sinT := SinThetaT(cosThetaI, etaI, etaT, sqrt);
    if sinT < 1.0 {
      SinThetaTNonNeg(cosThetaI, etaI, etaT, sqrt);
      CosThetaTPositive(sinT, sqrt);
      ReflectanceBounds(Saturate(cosThetaI), CosThetaT(sinT, sqrt), etaI, etaT);
    }
  }

  /**
   * With matched indices nothing is reflected at any non-grazing angle, and
   * at grazing incidence the total-internal-reflection branch returns 1.
   */
  lemma FresnelMatchedIndices(cosThetaI: real, eta: real, sqrt: real -> real)
    requires IsSqrt(sqrt) && eta > 0.0
    ensures cosThetaI > 0.0 ==> FresnelDielectric(cosThetaI, eta, eta, sqrt) == 0.0
    ensures cosThetaI <= 0.0 ==> FresnelDielectric(cosThetaI, eta, eta, sqrt) == 1.0
  {
    var c := Saturate(cosThetaI);
    var sinI := SinThetaI(cosThetaI, sqrt);
    assert eta / eta == 1.0;
    assert SinThetaT(cosThetaI, eta, eta, sqrt) == sinI;
    if cosThetaI > 0.0 {
      MatchedTransmission(cosThetaI, sqrt);
      assert Ratio(eta * c, eta * c) == 0.0;
    } else {
      assert c == 0.0;
      SqrtOfSquare(sqrt, 1.0);
      assert sinI == 1.0;
    }
  }

  /** Without a change of index the ray goes straight on: cos(theta_t) = cos(theta_i). */
  lemma MatchedTransmission(cosThetaI: real, sqrt: real -> real)
    requires IsSqrt(sqrt) && cosThetaI > 0.0
    ensures SinThetaI(cosThetaI, sqrt) < 1.0
    ensures CosThetaT(SinThetaI(cosThetaI, sqrt), sqrt) == Saturate(cosThetaI)
  {
    var c := Saturate(cosThetaI);
    var sinI := SinThetaI(cosThetaI, sqrt);
    SinThetaISquare(cosThetaI, sqrt);
    SineBelowOne(c, sinI);
    CosineFromSine(c, sinI, sqrt);
  }

  /** The cosine recovered from a sine whose square is 1 - c^2 is c itself, for c >= 0. */
  lemma CosineFromSine(c: real, sinT: real, sqrt: real -> real)
    requires IsSqrt(sqrt) && c >= 0.0 && sinT * sinT == 1.0 - c * c
    ensures CosThetaT(sinT, sqrt) == c
  {
    MulNonNeg(c, c);
    assert Max(1.0 - sinT * sinT, 0.0) == c * c;
    SqrtOfSquare(sqrt, c);
  }

  /** A non-negative sine whose square is 1 - c^2 for a positive c is below 1. */
  lemma SineBelowOne(c: real, sinI: real)
    requires c > 0.0 && sinI >= 0.0 && sinI * sinI == 1.0 - c * c
    ensures sinI < 1.0
  {
    if sinI >= 1.0 {
      MulNonNeg(sinI - 1.0, sinI + 1.0);
      MulNonNeg(c, c);
      assert c * c == 0.0;
      ZeroProduct(c, c);
    }
  }

  /** sin(theta_i) is the non-negative root of 1 - cos^2 for the clamped cosine. */
  lemma SinThetaISquare(cosThetaI: real, sqrt: real -> real)
    requires IsSqrt(sqrt)
    ensures var c := Saturate(cosThetaI);
      SinThetaI(cosThetaI, sqrt) >= 0.0 &&
      SinThetaI(cosThetaI, sqrt) * SinThetaI(cosThetaI, sqrt) == 1.0 - c * c
  {
    var c := Saturate(cosThetaI);
    MulNonNeg(c, c);
    assert c * c <= c * 1.0;
    assert Max(1.0 - c * c, 0.0) == 1.0 - c * c;
  }

  /** The cosine is clamped on entry, so pre-clamping it changes nothing. */
  lemma FresnelClampsCosine(cosThetaI: real, etaI: real, etaT: real, sqrt: real -> real)
    requires IsSqrt(sqrt) && etaI > 0.0 && etaT > 0.0
    ensures FresnelDielectric(Saturate(cosThetaI), etaI, etaT, sqrt) == FresnelDielectric(cosThetaI, etaI, etaT, sqrt)
  {
    assert Saturate(Saturate(cosThetaI)) == Saturate(cosThetaI);
    assert SinThetaI(Saturate(cosThetaI), sqrt) == SinThetaI(cosThetaI, sqrt);
    assert SinThetaT(Saturate(cosThetaI), etaI, etaT, sqrt) == SinThetaT(cosThetaI, etaI, etaT, sqrt);
  }
}
