// Orthonormal frames: Frisvad's branchless tangent/bitangent construction
// from a unit normal, the local-to-world transform it induces, and the Onb
// (u, v, w) basis object with its two transforms.
module Frame {
  import opened Types
  import RtMath

  /** std::copysign(1, z); a negative zero is not distinguished from zero. */
  function Sign(z: real): (s: real)
    ensures s == 1.0 || s == -1.0
    ensures s * z >= 0.0
    ensures z < 0.0 <==> s < 0.0
  {
    if z < 0.0 then -1.0 else 1.0
  }

  /** The denominator sign + N.z of makeOrthonormalBasis is never zero. */
  lemma BasisDenominator(z: real)
    ensures Sign(z) + z >= 1.0 || Sign(z) + z <= -1.0
  {
  }

  /** Three vectors of unit length that are pairwise perpendicular. */
  predicate Orthonormal(u: Vec3, v: Vec3, w: Vec3)
  {
    Dot(u, u) == 1.0 && Dot(v, v) == 1.0 && Dot(w, w) == 1.0 &&
    Dot(u, v) == 0.0 && Dot(u, w) == 0.0 && Dot(v, w) == 0.0
  }

  /** The (T, B) pair that makeOrthonormalBasis writes for the normal nz. */
  function MakeOrthonormalBasis(nz: Vec3): (Vec3, Vec3)
  {
    var s := Sign(nz.z);
    BasisDenominator(nz.z);
    var a := -1.0 / (s + nz.z);
    var b := nz.x * nz.y * a;
    (Vec3(1.0 + s * nz.x * nz.x * a, s * b, -s * nz.x),
     Vec3(b, s + nz.y * nz.y * a, -nz.y))
  }

  /** a * (x^2 + y^2) = a * (s + z) * (s - z) = z - s on the unit sphere. */
  lemma BasisKey(x: real, y: real, z: real, s: real, a: real)
    requires s * s == 1.0 && a * (s + z) == -1.0 && x * x + y * y + z * z == 1.0
    ensures a * (x * x + y * y) == z - s
  {
    assert x * x + y * y == (s - z) * (s + z);
    assert a * ((s - z) * (s + z)) == (a * (s + z)) * (s - z);
  }

  lemma BasisTangentNormal(x: real, y: real, z: real, s: real, a: real)
    requires s * s == 1.0 && a * (x * x + y * y) == z - s
    ensures x * (1.0 + s * x * x * a) + s * (x * y * a) * y + (-s * x) * z == 0.0
  {
    assert x * (1.0 + s * x * x * a) + s * (x * y * a) * y == x + s * x * (a * (x * x + y * y));
    assert s * x * (z - s) == s * x * z - (s * s) * x;
  }

  lemma BasisBitangentNormal(x: real, y: real, z: real, s: real, a: real)
    requires a * (x * x + y * y) == z - s
    ensures (x * y * a) * x + (s + y * y * a) * y + (-y) * z == 0.0
  {
    assert (x * y * a) * x + (y * y * a) * y == y * (a * (x * x + y * y));
  }

  lemma BasisTangentUnit(x: real, y: real, z: real, s: real, a: real)
    requires s * s == 1.0 && a * (s + z) == -1.0 && a * (x * x + y * y) == z - s
    ensures (1.0 + s * x * x * a) * (1.0 + s * x * x * a) + (s * (x * y * a)) * (s * (x * y * a))
      + (-s * x) * (-s * x) == 1.0
  {
    var p := s * x * x * a;
    assert (1.0 + p) * (1.0 + p) == 1.0 + 2.0 * p + p * p;
    assert p * p + (s * (x * y * a)) * (s * (x * y * a)) == (s * s) * (x * x * a) * (a * (x * x + y * y));
    assert (-s * x) * (-s * x) == (s * s) * (x * x);
    assert 2.0 * p + x * x * a * (z - s) + x * x == x * x * (a * (s + z) + 1.0);
  }

  lemma BasisBitangentUnit(x: real, y: real, z: real, s: real, a: real)
    requires s * s == 1.0 && a * (s + z) == -1.0 && a * (x * x + y * y) == z - s
    ensures (x * y * a) * (x * y * a) + (s + y * y * a) * (s + y * y * a) + (-y) * (-y) == 1.0
  {
    var p := y * y * a;
    assert (s + p) * (s + p) == s * s + 2.0 * s * p + p * p;
    assert (x * y * a) * (x * y * a) + p * p == (y * y * a) * (a * (x * x + y * y));
    assert 2.0 * s * p + y * y * a * (z - s) + y * y == y * y * (a * (s + z) + 1.0);
  }

  lemma BasisTangentBitangent(x: real, y: real, z: real, s: real, a: real)
    requires s * s == 1.0 && a * (s + z) == -1.0 && a * (x * x + y * y) == z - s
    ensures (1.0 + s * x * x * a) * (x * y * a) + (s * (x * y * a)) * (s + y * y * a)
      + (-s * x) * (-y) == 0.0
  {
    var b := x * y * a;
    assert (1.0 + s * x * x * a) * b + (s * b) * (s + y * y * a)
      == b + (s * s) * b + s * b * (a * (x * x + y * y));
    assert s * b * (z - s) == s * b * z - (s * s) * b;
    assert 1.0 + s * z == s * (s + z);
    assert b * (1.0 + s * z) == x * y * (s * (a * (s + z)));
  }

  /** For a unit normal, T, B and N form an orthonormal basis. */
  lemma MakeOrthonormalBasisOrthonormal(nz: Vec3)
    requires Dot(nz, nz) == 1.0
    ensures Orthonormal(MakeOrthonormalBasis(nz).0, MakeOrthonormalBasis(nz).1, nz)
  {
    var x, y, z := nz.x, nz.y, nz.z;
    var s := Sign(z);
    BasisDenominator(z);
    var a := -1.0 / (s + z);
    assert a * (s + z) == -1.0;
    BasisKey(x, y, z, s, a);
    BasisTangentNormal(x, y, z, s, a);
    BasisBitangentNormal(x, y, z, s, a);
    BasisTangentUnit(x, y, z, s, a);
    BasisBitangentUnit(x, y, z, s, a);
    BasisTangentBitangent(x, y, z, s, a);
  }

  /** Dot is linear in its first argument. */
  lemma DotLinear(a: Vec3, b: Vec3, c: Vec3, p: real, q: real)
    ensures Dot(Add(Scale(p, a), Scale(q, b)), c) == p * Dot(a, c) + q * Dot(b, c)
  {
  }

  /** The sum a.x * u + a.y * v + a.z * w. */
  function Combine(a: Vec3, u: Vec3, v: Vec3, w: Vec3): Vec3
  {
    Add(Add(Scale(a.x, u), Scale(a.y, v)), Scale(a.z, w))
  }

  /** Against an orthonormal basis, a combination's dot products recover its coefficients. */
  lemma CombineCoefficients(a: Vec3, u: Vec3, v: Vec3, w: Vec3)
    requires Orthonormal(u, v, w)
    ensures Dot(Combine(a, u, v, w), u) == a.x
    ensures Dot(Combine(a, u, v, w), v) == a.y
    ensures Dot(Combine(a, u, v, w), w) == a.z
    ensures Dot(Combine(a, u, v, w), Combine(a, u, v, w)) == Dot(a, a)
  {
    var c := Combine(a, u, v, w);
    var uv := Add(Scale(a.x, u), Scale(a.y, v));
    assert c == Add(Scale(1.0, uv), Scale(a.z, w));
    forall e | e == u || e == v || e == w || e == c
      ensures Dot(c, e) == a.x * Dot(u, e) + a.y * Dot(v, e) + a.z * Dot(w, e)
    {
      DotLinear(uv, w, e, 1.0, a.z);
      DotLinear(u, v, e, a.x, a.y);
    }
    assert Dot(u, c) == Dot(c, u) && Dot(v, c) == Dot(c, v) && Dot(w, c) == Dot(c, w);
  }

  /** The free localToWorld: v expressed in the frame whose z axis is normalize(n). */
  function LocalToWorld(n: Vec3, v: Vec3, sqrt: real -> real): Vec3
    requires IsSqrt(sqrt) && Dot(n, n) > 0.0
  {
    var nn := Normalize(n, sqrt);
    var (t, b) := MakeOrthonormalBasis(nn);
    Combine(v, t, b, nn)
  }

  /**
   * The local z axis maps to normalize(n); every local vector keeps its
   * length and its z component becomes its component along normalize(n).
   */
  lemma LocalToWorldFrame(n: Vec3, v: Vec3, sqrt: real -> real)
    requires IsSqrt(sqrt) && Dot(n, n) > 0.0
    ensures v == Vec3(0.0, 0.0, 1.0) ==> LocalToWorld(n, v, sqrt) == Normalize(n, sqrt)
    ensures Dot(LocalToWorld(n, v, sqrt), Normalize(n, sqrt)) == v.z
    ensures Dot(LocalToWorld(n, v, sqrt), LocalToWorld(n, v, sqrt)) == Dot(v, v)
  {
    var nn := Normalize(n, sqrt);
    NormalizeIsUnit(n, sqrt);
    MakeOrthonormalBasisOrthonormal(nn);
    var (t, b) := MakeOrthonormalBasis(nn);
    CombineCoefficients(v, t, b, nn);
  }

  /** Gram-Schmidt: the part of tangent perpendicular to the unit vector w. */
  function Project(tangent: Vec3, w: Vec3): Vec3
  {
    Sub(tangent, Scale(Dot(w, tangent), w))
  }

  /** Below this squared length the projected tangent is treated as degenerate. */
  const DegenerateTangent: real := 0.000000000001

  /**
   * The u, v pair buildFromNormalAndTangent chooses for the unit normal w:
   * the Frisvad basis for a degenerate tangent, else the normalised
   * projection and w x u.
   */
  function TangentBasis(w: Vec3, tangent: Vec3, sqrt: real -> real): (Vec3, Vec3)
    requires IsSqrt(sqrt)
  {
    var t := Project(tangent, w);
    if Dot(t, t) < DegenerateTangent then MakeOrthonormalBasis(w)
    else
      var u := Normalize(t, sqrt);
      (u, Cross(w, u))
  }

  /** |a x b|^2 = |a|^2 |b|^2 - (a . b)^2 and a x b is perpendicular to both. */
  lemma CrossFacts(a: Vec3, b: Vec3)
    ensures Dot(Cross(a, b), Cross(a, b)) == Dot(a, a) * Dot(b, b) - Dot(a, b) * Dot(a, b)
    ensures Dot(Cross(a, b), a) == 0.0 && Dot(Cross(a, b), b) == 0.0
  {
  }

  /** Whichever branch is taken, (u, v, w) is orthonormal. */
  lemma TangentBasisOrthonormal(w: Vec3, tangent: Vec3, sqrt: real -> real)
    requires IsSqrt(sqrt) && Dot(w, w) == 1.0
    ensures Orthonormal(TangentBasis(w, tangent, sqrt).0, TangentBasis(w, tangent, sqrt).1, w)
  {
    var t := Project(tangent, w);
    if Dot(t, t) < DegenerateTangent {
      MakeOrthonormalBasisOrthonormal(w);
    } else {
      var u := Normalize(t, sqrt);
      NormalizeIsUnit(t, sqrt);
      var k := 1.0 / sqrt(Dot(t, t));
      assert Dot(t, w) == 0.0 by {
        assert Dot(t, w) == Dot(tangent, w) - Dot(w, tangent) * Dot(w, w);
      }
      assert Dot(u, w) == k * Dot(t, w);
      CrossFacts(w, u);
      var v := Cross(w, u);
      assert Dot(v, v) == 1.0;
    }
  }

  /** An orthonormal basis u (tangent), v (bitangent), w (normal). */
  /**
   * The first component of the triple product identity, over coordinates:
   * m = b × c and dac, dab the dot products a·c and a·b.
   */
  lemma TripleComponent(a1: real, a2: real, a3: real, b1: real, b2: real, b3: real,
                        c1: real, c2: real, c3: real, m2: real, m3: real, dac: real, dab: real)
    requires m2 == b3 * c1 - b1 * c3 && m3 == b1 * c2 - b2 * c1
    requires dac == a1 * c1 + a2 * c2 + a3 * c3 && dab == a1 * b1 + a2 * b2 + a3 * b3
    ensures a2 * m3 - a3 * m2 == dac * b1 - dab * c1
  {
    assert a2 * m3 == a2 * c2 * b1 - a2 * b2 * c1;
    assert a3 * m2 == a3 * b3 * c1 - a3 * c3 * b1;
    assert dac * b1 == a1 * c1 * b1 + a2 * c2 * b1 + a3 * c3 * b1;
    assert dab * c1 == a1 * b1 * c1 + a2 * b2 * c1 + a3 * b3 * c1;
  }

  /** The vector triple product a × (b × c) = (a·c) b − (a·b) c. */
  lemma TripleProduct(a: Vec3, b: Vec3, c: Vec3)
    ensures Cross(a, Cross(b, c)) == Sub(Scale(Dot(a, c), b), Scale(Dot(a, b), c))
  {
    var l, r := Cross(a, Cross(b, c)), Sub(Scale(Dot(a, c), b), Scale(Dot(a, b), c));
    TripleX(a, b, c);
    TripleY(a, b, c);
    TripleZ(a, b, c);
    assert l == Vec3(l.x, l.y, l.z) && r == Vec3(r.x, r.y, r.z);
  }

  /** One coordinate of the triple product identity; each coordinate is a separate, small goal. */
  lemma TripleX(a: Vec3, b: Vec3, c: Vec3)
    ensures Cross(a, Cross(b, c)).x == Sub(Scale(Dot(a, c), b), Scale(Dot(a, b), c)).x
  {
    var m := Cross(b, c);
    TripleComponent(a.x, a.y, a.z, b.x, b.y, b.z, c.x, c.y, c.z, m.y, m.z, Dot(a, c), Dot(a, b));
  }

  lemma TripleY(a: Vec3, b: Vec3, c: Vec3)
    ensures Cross(a, Cross(b, c)).y == Sub(Scale(Dot(a, c), b), Scale(Dot(a, b), c)).y
  {
    var m := Cross(b, c);
    TripleComponent(a.y, a.z, a.x, b.y, b.z, b.x, c.y, c.z, c.x, m.z, m.x, Dot(a, c), Dot(a, b));
  }

  lemma TripleZ(a: Vec3, b: Vec3, c: Vec3)
    ensures Cross(a, Cross(b, c)).z == Sub(Scale(Dot(a, c), b), Scale(Dot(a, b), c)).z
  {
    var m := Cross(b, c);
    TripleComponent(a.z, a.x, a.y, b.z, b.x, b.y, c.z, c.x, c.y, m.x, m.y, Dot(a, c), Dot(a, b));
  }

  /**
   * A vector perpendicular to both vectors of an orthonormal pair is a
   * multiple of their cross product: its squared length is the square of
   * its component along u × v.
   */
  lemma AlongCross(c: Vec3, u: Vec3, v: Vec3)
    requires Dot(u, u) == 1.0 && Dot(v, v) == 1.0 && Dot(u, v) == 0.0
    requires Dot(c, u) == 0.0 && Dot(c, v) == 0.0
    ensures Cross(c, Cross(u, v)) == Vec3(0.0, 0.0, 0.0)
    ensures Dot(c, c) == Dot(c, Cross(u, v)) * Dot(c, Cross(u, v))
  {
    var n := Cross(u, v);
    TripleProduct(c, u, v);
    CrossFacts(u, v);
    CrossFacts(c, n);
  }

  /** The third vector of an orthonormal basis is ±(u × v). */
  lemma ThirdIsCross(u: Vec3, v: Vec3, w: Vec3)
    requires Orthonormal(u, v, w)
    ensures Cross(u, v) == Scale(Dot(w, Cross(u, v)), w)
  {
    var n := Cross(u, v);
    AlongCross(w, u, v);
    TripleProduct(w, w, n);
  }

  /** Nothing but the zero vector is perpendicular to a whole orthonormal basis. */
  lemma PerpendicularToBasis(c: Vec3, u: Vec3, v: Vec3, w: Vec3)
    requires Orthonormal(u, v, w)
    requires Dot(c, u) == 0.0 && Dot(c, v) == 0.0 && Dot(c, w) == 0.0
    ensures c == Vec3(0.0, 0.0, 0.0)
  {
    var n := Cross(u, v);
    AlongCross(c, u, v);
    ThirdIsCross(u, v, w);
    var k := Dot(w, n);
    assert Dot(c, n) == k * Dot(c, w);
    assert Dot(c, c) == 0.0;
    SquaresVanish(c.x, c.y, c.z);
  }

  /** A sum of three real squares is zero only when all three are. */
  lemma SquaresVanish(x: real, y: real, z: real)
    requires x * x + y * y + z * z == 0.0
    ensures x == 0.0 && y == 0.0 && z == 0.0
  {
    RtMath.MulNonNeg(if x >= 0.0 then x else -x, if x >= 0.0 then x else -x);
    RtMath.MulNonNeg(if y >= 0.0 then y else -y, if y >= 0.0 then y else -y);
    RtMath.MulNonNeg(if z >= 0.0 then z else -z, if z >= 0.0 then z else -z);
    RtMath.ZeroProduct(x, x);
    RtMath.ZeroProduct(y, y);
    RtMath.ZeroProduct(z, z);
  }

  /**
   * An orthonormal basis of three vectors spans space: recombining the
   * components of a along u, v and w gives a back.
   */
  lemma BasisSpans(a: Vec3, u: Vec3, v: Vec3, w: Vec3)
    requires Orthonormal(u, v, w)
    ensures Combine(Vec3(Dot(a, u), Dot(a, v), Dot(a, w)), u, v, w) == a
  {
    var r := Vec3(Dot(a, u), Dot(a, v), Dot(a, w));
    var p := Combine(r, u, v, w);
    CombineCoefficients(r, u, v, w);
    var c := Sub(a, p);
    assert Dot(c, u) == Dot(a, u) - Dot(p, u);
    assert Dot(c, v) == Dot(a, v) - Dot(p, v);
    assert Dot(c, w) == Dot(a, w) - Dot(p, w);
    PerpendicularToBasis(c, u, v, w);
  }

  class Onb {
    var u: Vec3
    var v: Vec3
    var w: Vec3

    /** All three axes start as the zero vector. */
    constructor ()
      ensures u == Black && v == Black && w == Black
    {
      u, v, w := Black, Black, Black;
    }

    /** The basis around normalize(n). */
    constructor FromNormal(n: Vec3, sqrt: real -> real)
      requires IsSqrt(sqrt) && Dot(n, n) > 0.0
      ensures w == Normalize(n, sqrt)
      ensures (u, v) == MakeOrthonormalBasis(w)
      ensures Orthonormal(u, v, w)
    {
      var nn := Normalize(n, sqrt);
      NormalizeIsUnit(n, sqrt);
      MakeOrthonormalBasisOrthonormal(nn);
      w := nn;
      u, v := MakeOrthonormalBasis(nn).0, MakeOrthonormalBasis(nn).1;
    }

    /** w becomes normalize(n) and (u, v) the Frisvad basis around it. */
    method BuildFromW(n: Vec3, sqrt: real -> real)
      requires IsSqrt(sqrt) && Dot(n, n) > 0.0
      modifies this
      ensures w == Normalize(n, sqrt)
      ensures (u, v) == MakeOrthonormalBasis(w)
      ensures Orthonormal(u, v, w)
    {
      w := Normalize(n, sqrt);
      NormalizeIsUnit(n, sqrt);
      MakeOrthonormalBasisOrthonormal(w);
      u, v := MakeOrthonormalBasis(w).0, MakeOrthonormalBasis(w).1;
    }

    /** w becomes normalize(n) and u follows the tangent's direction where it can. */
    method BuildFromNormalAndTangent(n: Vec3, tangent: Vec3, sqrt: real -> real)
      requires IsSqrt(sqrt) && Dot(n, n) > 0.0
      modifies this
      ensures w == Normalize(n, sqrt)
      ensures (u, v) == TangentBasis(w, tangent, sqrt)
      ensures Orthonormal(u, v, w)
    {
      w := Normalize(n, sqrt);
      NormalizeIsUnit(n, sqrt);
      TangentBasisOrthonormal(w, tangent, sqrt);
      var t := Sub(tangent, Scale(Dot(w, tangent), w));
      if Dot(t, t) < DegenerateTangent {
        u, v := MakeOrthonormalBasis(w).0, MakeOrthonormalBasis(w).1;
        return;
      }
      u := Normalize(t, sqrt);
      v := Cross(w, u);
    }

    /** a.x * u + a.y * v + a.z * w. */
    function LocalToWorld(a: Vec3): (r: Vec3)
      reads this
      ensures Orthonormal(u, v, w) ==> Dot(r, u) == a.x && Dot(r, v) == a.y && Dot(r, w) == a.z
      ensures Orthonormal(u, v, w) ==> Dot(r, r) == Dot(a, a)
    {
      if Orthonormal(u, v, w) then
        CombineCoefficients(a, u, v, w);
        Combine(a, u, v, w)
      else
        Combine(a, u, v, w)
    }

    /** The components of a along u, v and w; for an orthonormal basis LocalToWorld undoes it. */
    function WorldToLocal(a: Vec3): (r: Vec3)
      reads this
      ensures Orthonormal(u, v, w) ==> LocalToWorld(r) == a
    {
      if Orthonormal(u, v, w) then
        BasisSpans(a, u, v, w);
        Vec3(Dot(a, u), Dot(a, v), Dot(a, w))
      else
        Vec3(Dot(a, u), Dot(a, v), Dot(a, w))
    }
  }

  /** Going to world space and back is the identity for an orthonormal basis. */
  lemma OnbRoundTrip(b: Onb, a: Vec3)
    requires Orthonormal(b.u, b.v, b.w)
    ensures b.WorldToLocal(b.LocalToWorld(a)) == a
  {
    var r := b.LocalToWorld(a);
    assert Dot(r, b.u) == a.x && Dot(r, b.v) == a.y && Dot(r, b.w) == a.z;
  }
}
