// An equirectangular (latitude-longitude) environment map: radiance looked
// up by direction with bilinear filtering, importance sampling of
// directions through a 2-D distribution over luminance * sin(theta), and
// the matching solid-angle density.  The <cmath> functions the map calls
// (sin, cos, acos, atan2) and the square root behind glm::normalize are
// parameters of the map.
module EnvMaps {
  import opened Types
  import opened RtMath
  import opened Images
  import opened Distributions1D
  import opened Distributions2D

  /** The math library the map calls. */
  datatype Libm = Libm(sin: real -> real, cos: real -> real, acos: real -> real,
                       atan2: (real, real) -> real, sqrt: real -> real)

  /**
   * The laws of the library the proofs below rely on: sin^2 + cos^2 = 1,
   * sin is non-negative on [0, pi] and positive inside it, acos inverts cos
   * on [0, pi], atan2(z, x) is the angle in (-pi, pi) pointing along (x, z),
   * acos maps [-1, 1] into [0, pi], atan2 maps into [-pi, pi], and sqrt is
   * an exact square root.
   */
  ghost predicate Laws(lib: Libm)
  {
    IsSqrt(lib.sqrt) && UnitCircle(lib) && SinNonNegative(lib) && SinPositive(lib) &&
    AcosInverts(lib) && AtanInverts(lib) && InverseRanges(lib)
  }

  /** sin is non-negative on [0, pi]. */
  ghost predicate SinNonNegative(lib: Libm)
  {
    forall a :: 0.0 <= a <= Pi ==> lib.sin(a) >= 0.0
  }

  /** acos inverts cos on [0, pi]. */
  ghost predicate AcosInverts(lib: Libm)
  {
    forall a :: 0.0 <= a <= Pi ==> lib.acos(lib.cos(a)) == a
  }

  /** acos maps [-1, 1] into [0, pi] and atan2 maps into [-pi, pi]. */
  ghost predicate InverseRanges(lib: Libm)
  {
    (forall c :: -1.0 <= c <= 1.0 ==> 0.0 <= lib.acos(c) <= Pi) &&
    (forall z, x :: -Pi <= lib.atan2(z, x) <= Pi)
  }

  /** sin^2 + cos^2 = 1. */
  ghost predicate UnitCircle(lib: Libm)
  {
    forall a :: lib.sin(a) * lib.sin(a) + lib.cos(a) * lib.cos(a) == 1.0
  }

  /** sin is positive inside (0, pi). */
  ghost predicate SinPositive(lib: Libm)
  {
    forall a :: 0.0 < a < Pi ==> lib.sin(a) > 0.0
  }

  /** atan2(z, x) is the angle in (-pi, pi) pointing along (x, z). */
  ghost predicate AtanInverts(lib: Libm)
  {
    forall z, x, a {:trigger lib.atan2(z, x), lib.sin(a)} ::
      (-Pi < a < Pi && x * lib.sin(a) == z * lib.cos(a) &&
       x * lib.cos(a) + z * lib.sin(a) > 0.0) ==> lib.atan2(z, x) == a
  }

  /** Rec. 709 luminance with the weights 0.2126, 0.7152, 0.0722. */
  function Luminance(rgb: Vec3): (l: real)
    ensures rgb.x >= 0.0 && rgb.y >= 0.0 && rgb.z >= 0.0 ==> l >= 0.0
  {
    0.2126 * rgb.x + 0.7152 * rgb.y + 0.0722 * rgb.z
  }

  /** The weights sum to one: a grey pixel's luminance is its grey level. */
  lemma LuminanceOfGrey(c: real)
    ensures Luminance(Splat(c)) == c
  {
  }

  /** The polar angle of spherical v: theta = pi * (1 - clamp(v, 0, 1)). */
  function Theta(v: real): (theta: real)
    ensures 0.0 <= theta <= Pi
    ensures 0.0 < v < 1.0 ==> 0.0 < theta < Pi
  {
    Pi * (1.0 - ClampR(v, 0.0, 1.0))
  }

  /** The azimuth of spherical u: phi = 2 pi clamp(u, 0, 1) - pi. */
  function Phi(u: real): (phi: real)
    ensures -Pi <= phi <= Pi
    ensures 0.0 < u < 1.0 ==> -Pi < phi < Pi
  {
    ClampR(u, 0.0, 1.0) * 2.0 * Pi - Pi
  }

  /** sinThetaFromV. */
  function SinThetaFromV(v: real, lib: Libm): real
  {
    lib.sin(Theta(v))
  }

  /** uvToDir: (sin theta cos phi, cos theta, sin theta sin phi), y up. */
  function UvToDir(u: real, v: real, lib: Libm): Vec3
  {
    var phi := Phi(u);
    var theta := Theta(v);
    Vec3(lib.sin(theta) * lib.cos(phi), lib.cos(theta), lib.sin(theta) * lib.sin(phi))
  }

  /** dirToUV: u = (atan2(z, x) + pi) / (2 pi), v = 1 - acos(clamp(y, -1, 1)) / pi. */
  function DirToUV(d: Vec3, lib: Libm): Point2
  {
    var theta := lib.acos(ClampR(d.y, -1.0, 1.0));
    var phi := lib.atan2(d.z, d.x);
    Point2((phi + Pi) / (2.0 * Pi), 1.0 - theta / Pi)
  }

  /** Under the library laws every direction maps into the unit square. */
  lemma DirToUVInUnitSquare(d: Vec3, lib: Libm)
    requires InverseRanges(lib)
    ensures var uv := DirToUV(d, lib); 0.0 <= uv.x <= 1.0 && 0.0 <= uv.y <= 1.0
  {
    var theta := lib.acos(ClampR(d.y, -1.0, 1.0));
    var phi := lib.atan2(d.z, d.x);
    assert 0.0 <= theta <= Pi && -Pi <= phi <= Pi;
    DivUnit(phi + Pi, 2.0 * Pi);
    DivUnit(theta, Pi);
  }

  lemma DivUnit(a: real, b: real)
    requires b > 0.0 && 0.0 <= a <= b
    ensures 0.0 <= a / b <= 1.0
  {
  }

  /** A number whose square is at most one lies in [-1, 1]. */
  lemma SquareAtMostOne(c: real)
    requires c * c <= 1.0
    ensures -1.0 <= c <= 1.0
  {
    assert c * c - 1.0 == (c - 1.0) * (c + 1.0);
    if c > 1.0 {
      MulPos(c - 1.0, c + 1.0);
    } else if c < -1.0 {
      MulPos(1.0 - c, -1.0 - c);
    }
  }

  /**
   * uvToDir and dirToUV are inverse on the open unit square: the direction
   * is a unit vector, so normalising leaves it alone, and mapping it back
   * gives (u, v).
   */
  lemma UvDirRoundTrip(u: real, v: real, lib: Libm)
    requires Laws(lib) && 0.0 < u < 1.0 && 0.0 < v < 1.0
    ensures Dot(UvToDir(u, v, lib), UvToDir(u, v, lib)) == 1.0
    ensures Normalize(UvToDir(u, v, lib), lib.sqrt) == UvToDir(u, v, lib)
    ensures DirToUV(Normalize(UvToDir(u, v, lib), lib.sqrt), lib) == Point2(u, v)
  {
    var d := UvToDir(u, v, lib);
    UvToDirUnit(u, v, lib);
    NormalizeUnit(d, lib.sqrt);
    PolarBack(v, lib);
    AzimuthBack(u, v, lib);
  }

  lemma UvToDirUnit(u: real, v: real, lib: Libm)
    requires UnitCircle(lib)
    ensures Dot(UvToDir(u, v, lib), UvToDir(u, v, lib)) == 1.0
  {
    var phi, theta := Phi(u), Theta(v);
    var st, ct, sp, cp := lib.sin(theta), lib.cos(theta), lib.sin(phi), lib.cos(phi);
    assert sp * sp + cp * cp == 1.0 && st * st + ct * ct == 1.0;
    UnitDirection(st, ct, sp, cp);
  }

  /** The v of dirToUV undoes the polar angle of uvToDir. */
  lemma PolarBack(v: real, lib: Libm)
    requires UnitCircle(lib) && AcosInverts(lib) && 0.0 < v < 1.0
    ensures 1.0 - lib.acos(ClampR(lib.cos(Theta(v)), -1.0, 1.0)) / Pi == v
  {
    var theta := Theta(v);
    var ct := lib.cos(theta);
    assert lib.sin(theta) * lib.sin(theta) + ct * ct == 1.0;
    assert ct * ct <= 1.0 by {
      assert lib.sin(theta) * lib.sin(theta) >= 0.0;
    }
    SquareAtMostOne(ct);
    assert lib.acos(ct) == theta;
  }

  /** The u of dirToUV undoes the azimuth of uvToDir. */
  lemma AzimuthBack(u: real, v: real, lib: Libm)
    requires UnitCircle(lib) && SinPositive(lib) && AtanInverts(lib)
    requires 0.0 < u < 1.0 && 0.0 < v < 1.0
    ensures var d := UvToDir(u, v, lib); (lib.atan2(d.z, d.x) + Pi) / (2.0 * Pi) == u
  {
    AtanOfDirection(u, v, lib);
    PhiBack(u);
  }

  /** (phi + pi) / (2 pi) recovers u from its azimuth. */
  lemma PhiBack(u: real)
    requires 0.0 < u < 1.0
    ensures (Phi(u) + Pi) / (2.0 * Pi) == u
  {
    assert Phi(u) + Pi == u * (2.0 * Pi);
  }

  /** atan2(z, x) of the direction uvToDir builds is its azimuth. */
  lemma AtanOfDirection(u: real, v: real, lib: Libm)
    requires UnitCircle(lib) && SinPositive(lib) && AtanInverts(lib)
    requires 0.0 < u < 1.0 && 0.0 < v < 1.0
    ensures var d := UvToDir(u, v, lib); lib.atan2(d.z, d.x) == Phi(u)
  {
    var phi, theta := Phi(u), Theta(v);
    assert lib.sin(theta) > 0.0;
    AtanOfPolar(lib, lib.sin(theta), phi);
  }

  /** atan2 of a point at positive radius r and angle a in (-pi, pi) is a. */
  lemma AtanOfPolar(lib: Libm, r: real, a: real)
    requires UnitCircle(lib) && AtanInverts(lib) && r > 0.0 && -Pi < a < Pi
    ensures lib.atan2(r * lib.sin(a), r * lib.cos(a)) == a
  {
    var sp, cp := lib.sin(a), lib.cos(a);
    assert sp * sp + cp * cp == 1.0;
    PolarAngle(r, sp, cp);
    Atan2Law(lib, r * sp, r * cp, a);
  }

  lemma Atan2Law(lib: Libm, z: real, x: real, a: real)
    requires AtanInverts(lib) && -Pi < a < Pi
    requires x * lib.sin(a) == z * lib.cos(a) && x * lib.cos(a) + z * lib.sin(a) > 0.0
    ensures lib.atan2(z, x) == a
  {
  }

  lemma UnitDirection(st: real, ct: real, sp: real, cp: real)
    requires sp * sp + cp * cp == 1.0 && st * st + ct * ct == 1.0
    ensures (st * cp) * (st * cp) + ct * ct + (st * sp) * (st * sp) == 1.0
  {
    assert (st * cp) * (st * cp) + (st * sp) * (st * sp) == (st * st) * (sp * sp + cp * cp);
  }

  lemma PolarAngle(st: real, sp: real, cp: real)
    requires st > 0.0 && sp * sp + cp * cp == 1.0
    ensures (st * cp) * sp == (st * sp) * cp
    ensures (st * cp) * cp + (st * sp) * sp > 0.0
  {
    assert (st * cp) * cp + (st * sp) * sp == st * (sp * sp + cp * cp);
  }

  /** C++ % on int: the remainder takes the sign of the dividend. */
  function CRem(a: int, b: int): (r: int)
    requires b > 0
    ensures -b < r < b
    ensures a >= 0 ==> r >= 0
    ensures a < 0 ==> r <= 0
  {
    if a >= 0 then a % b else -((-a) % b)
  }

  /**
   * The horizontal wrap of texel, (x % w + w) % w with C++ %: always in
   * [0, w), and equal to the mathematical remainder of x modulo w.
   */
  function WrapX(x: int, w: int): (r: int)
    requires w > 0
    ensures 0 <= r < w
    ensures r == x % w
  {
    WrapIsRemainder(x, w);
    CRem(CRem(x, w) + w, w)
  }

  lemma WrapIsRemainder(x: int, w: int)
    requires w > 0
    ensures CRem(CRem(x, w) + w, w) == x % w
  {
    if x >= 0 {
      UniqueRemainder(x % w + w, w, 1, x % w);
    } else {
      var q := (-x) % w;
      var k := (-x) / w;
      assert -x == k * w + q;
      assert CRem(x, w) + w == w - q;
      if q == 0 {
        UniqueRemainder(x, w, -k, 0);
        UniqueRemainder(w, w, 1, 0);
      } else {
        UniqueRemainder(x, w, -k - 1, w - q);
      }
    }
  }

  /** Euclidean division is unique: x = m * w + r with 0 <= r < w forces x % w == r. */
  lemma UniqueRemainder(x: int, w: int, m: int, r: int)
    requires w > 0 && 0 <= r < w && x == m * w + r
    ensures x % w == r
  {
    var q := x / w;
    assert (m - q) * w == x % w - r;
    MulMono(m - q, -1, w);
    MulMono(1, m - q, w);
  }

  /** texel: wrap x horizontally, clamp y vertically, read the pixel. */
  function Texel(img: Image, x: int, y: int): (c: Vec3)
    requires IsValid(img)
    ensures c in img.pixels
  {
    At(img, WrapX(x, img.width), ClampI(y, 0, img.height - 1))
  }

  /** glm::mix on each channel. */
  function Mix(a: Vec3, b: Vec3, t: real): Vec3
  {
    Vec3(Lerp(a.x, b.x, t), Lerp(a.y, b.y, t), Lerp(a.z, b.z, t))
  }

  /**
   * sampleBilinear: wrap u into [0, 1), clamp v into [0, 1], go to
   * pixel-centred coordinates (with v flipped, row 0 at the top) and blend
   * the four surrounding texels.
   */
  function SampleBilinear(img: Image, u: real, v: real): Vec3
    requires IsValid(img)
  {
    Blend(img, PixelX(u, img.width), PixelY(v, img.height))
  }

  /** The horizontal pixel coordinate of u: wrap u into [0, 1), scale by the width, centre. */
  function PixelX(u: real, w: int): real
  {
    (u - (u.Floor as real)) * (w as real) - 0.5
  }

  /** The vertical pixel coordinate of v: clamp v into [0, 1], flip, scale by the height, centre. */
  function PixelY(v: real, h: int): real
  {
    (1.0 - ClampR(v, 0.0, 1.0)) * (h as real) - 0.5
  }

  /** The bilinear blend of the four texels around the pixel coordinates (x, y). */
  function Blend(img: Image, x: real, y: real): Vec3
    requires IsValid(img)
  {
    var x0 := x.Floor;
    var y0 := y.Floor;
    var tx := x - (x0 as real);
    var ty := y - (y0 as real);
    Mix(Mix(Texel(img, x0, y0), Texel(img, x0 + 1, y0), tx),
        Mix(Texel(img, x0, y0 + 1), Texel(img, x0 + 1, y0 + 1), tx),
        ty)
  }

  /** Every channel of c lies between the matching channels of lo and hi. */
  predicate Within(c: Vec3, lo: Vec3, hi: Vec3)
  {
    lo.x <= c.x <= hi.x && lo.y <= c.y <= hi.y && lo.z <= c.z <= hi.z
  }

  /** Every pixel of the image lies within [lo, hi]. */
  predicate PixelsWithin(img: Image, lo: Vec3, hi: Vec3)
  {
    forall p :: p in img.pixels ==> Within(p, lo, hi)
  }

  lemma MixWithin(a: Vec3, b: Vec3, t: real, lo: Vec3, hi: Vec3)
    requires Within(a, lo, hi) && Within(b, lo, hi) && 0.0 <= t <= 1.0
    ensures Within(Mix(a, b, t), lo, hi)
  {
    LerpBetween(a.x, b.x, t);
    LerpBetween(a.y, b.y, t);
    LerpBetween(a.z, b.z, t);
  }

  /** The blend never leaves the range of the image's pixels, channel by channel. */
  lemma BlendWithin(img: Image, x: real, y: real, lo: Vec3, hi: Vec3)
    requires IsValid(img) && PixelsWithin(img, lo, hi)
    ensures Within(Blend(img, x, y), lo, hi)
  {
    var x0 := x.Floor;
    var y0 := y.Floor;
    var tx := x - (x0 as real);
    var ty := y - (y0 as real);
    var c00, c10 := Texel(img, x0, y0), Texel(img, x0 + 1, y0);
    var c01, c11 := Texel(img, x0, y0 + 1), Texel(img, x0 + 1, y0 + 1);
    MixWithin(c00, c10, tx, lo, hi);
    MixWithin(c01, c11, tx, lo, hi);
    MixWithin(Mix(c00, c10, tx), Mix(c01, c11, tx), ty, lo, hi);
  }

  /**
   * The wrap puts u in [0, 1), and the bilinear lookup never leaves the
   * range of the image's pixels, channel by channel.
   */
  lemma SampleBilinearWithin(img: Image, u: real, v: real, lo: Vec3, hi: Vec3)
    requires IsValid(img) && PixelsWithin(img, lo, hi)
    ensures 0.0 <= u - (u.Floor as real) < 1.0
    ensures Within(SampleBilinear(img, u, v), lo, hi)
  {
    BlendWithin(img, PixelX(u, img.width), PixelY(v, img.height), lo, hi);
  }

  /** The sine of the polar angle at the centre of row y of an h-row map. */
  function RowSin(h: int, y: int, lib: Libm): real
    requires h > 0
  {
    var v := (y as real + 0.5) / (h as real);
    SinThetaFromV(1.0 - v, lib)
  }

  /** The importance weight of pixel (x, y): max(luminance, 0) * sin(theta) of its row. */
  function Weight(img: Image, x: int, y: int, lib: Libm): real
    requires IsValid(img) && InBounds(img, x, y)
  {
    Max(Luminance(At(img, x, y)), 0.0) * RowSin(img.height, y, lib)
  }

  /** The weight stored at flat index i, i.e. of pixel (i % w, i / w). */
  function WeightAt(img: Image, i: int, lib: Libm): real
    requires IsValid(img) && 0 <= i < img.width * img.height
  {
    IndexSurjective(img.width, img.height, i);
    Weight(img, i % img.width, i / img.width, lib)
  }

  /** The weight grid buildDistribution fills, row-major. */
  function Weights(img: Image, lib: Libm): (ws: seq<real>)
    requires IsValid(img)
    ensures |ws| == img.width * img.height
  {
    seq(img.width * img.height, i requires 0 <= i < img.width * img.height => WeightAt(img, i, lib))
  }

  /** Under the library laws every weight is non-negative. */
  lemma WeightsNonNegative(img: Image, lib: Libm)
    requires IsValid(img) && SinNonNegative(lib)
    ensures NonNegative(Weights(img, lib))
  {
    var w, h := img.width, img.height;
    forall i | 0 <= i < w * h
      ensures Weights(img, lib)[i] >= 0.0
    {
      IndexSurjective(w, h, i);
      var y := i / w;
      var v := (y as real + 0.5) / (h as real);
      RowCentre(y, h);
      assert Theta(1.0 - v) <= Pi;
      MulNonNeg(Max(Luminance(At(img, i % w, y)), 0.0), RowSin(h, y, lib));
    }
  }

  lemma RowCentre(y: int, h: int)
    requires 0 <= y < h
    ensures 0.0 < (y as real + 0.5) / (h as real) < 1.0
  {
    StrictFraction(y as real + 0.5, h as real);
  }

  /** A quotient of 0 < a < b lies strictly inside (0, 1). */
  lemma StrictFraction(a: real, b: real)
    requires 0.0 < a < b
    ensures 0.0 < a / b < 1.0
  {
    assert (b - a) / b > 0.0;
    assert a / b + (b - a) / b == b / b;
    assert b / b == 1.0;
  }

  /** The index arithmetic of the fill loop: y * w + x comes from (x, y). */
  lemma FlatIndex(w: int, h: int, x: int, y: int)
    requires w > 0 && 0 <= x < w && 0 <= y < h
    ensures 0 <= y * w + x < w * h && (y * w + x) % w == x && (y * w + x) / w == y
  {
    IndexInside(w, h, x, y);
    var i := y * w + x;
    IndexSurjective(w, h, i);
    IndexInjective(w, x, y, i % w, i / w);
  }

  class EnvMap {
    const img: Image
    const lib: Libm
    var dist: Option<Distribution2D>

    /**
     * A distribution exists exactly for a valid image, and it is the one
     * built from the image's weight grid.
     */
    ghost predicate Valid()
      reads this
    {
      (dist.Some? <==> IsValid(img)) &&
      (dist.Some? ==> dist.value == MakeDistribution2D(Weights(img, lib), img.width, img.height)) &&
      Shaped()
    }

    /** A distribution, when there is one, has the shape sample and pdf index into. */
    ghost predicate Shaped()
      reads this
    {
      dist.Some? ==> Shaped2D(dist.value)
    }

    /** The constructor: keep the image and build the distribution only for a valid one. */
    constructor (image: Image, lib: Libm)
      ensures img == image && this.lib == lib && Valid()
    {
      img := image;
      this.lib := lib;
      dist := None;
      new;
      if IsValid(img) {
        BuildDistribution();
      }
    }

    /** The first n cells of the weight grid hold their weights. */
    ghost predicate Filled(ws: seq<real>, n: int)
      requires IsValid(img) && |ws| == img.width * img.height
    {
      forall i :: 0 <= i < n && i < |ws| ==> ws[i] == WeightAt(img, i, lib)
    }

    /** One row of buildDistribution's fill: pixel (x, y) gets its weight at y * w + x. */
    method FillRow(weights: array<real>, y: int)
      requires IsValid(img) && weights.Length == img.width * img.height && 0 <= y < img.height
      requires Filled(weights[..], y * img.width)
      modifies weights
      ensures Filled(weights[..], y * img.width + img.width)
    {
      var w := img.width;
      var h := img.height;
      var v := (y as real + 0.5) / (h as real);
      var vSph := 1.0 - v;
      var sinT := SinThetaFromV(vSph, lib);
      var x := 0;
      while x < w
        invariant 0 <= x <= w
        invariant Filled(weights[..], y * w + x)
      {
        FlatIndex(w, h, x, y);
        var rgb := At(img, x, y);
        var lum := Luminance(rgb);
        weights[y * w + x] := Max(lum, 0.0) * sinT;
        x := x + 1;
      }
    }

    /**
     * buildDistribution: fill the weight grid row by row, pixel (x, y) at
     * y * w + x, and build the 2-D distribution from it.
     */
    method BuildDistribution()
      requires IsValid(img)
      modifies this
      ensures dist == Some(MakeDistribution2D(Weights(img, lib), img.width, img.height))
      ensures Shaped2D(dist.value)
    {
      var w := img.width;
      var h := img.height;
      var weights := new real[w * h];
      var y := 0;
      while y < h
        invariant 0 <= y <= h
        invariant y * w <= w * h
        invariant Filled(weights[..], y * w)
      {
        FillRow(weights, y);
        assert y * w + w == (y + 1) * w;
        MulMono(y + 1, h, w);
        y := y + 1;
      }
      assert weights[..] == Weights(img, lib);
      var d := Build2D(weights[..], w, h);
      MakeShaped(weights[..], w, h);
      dist := Some(d);
    }

    /**
     * eval: black for an invalid image, otherwise the bilinear lookup at the
     * uv of the normalised direction.
     */
    function Eval(dir: Vec3): (le: Spectrum)
      reads this
      requires IsSqrt(lib.sqrt) && Dot(dir, dir) > 0.0
      ensures !IsValid(img) ==> le == Black
    {
      if !IsValid(img) then Black
      else
        var uv := DirToUV(Normalize(dir, lib.sqrt), lib);
        SampleBilinear(img, uv.x, uv.y)
    }

    /** The radiance eval returns stays within the range of the image's pixels. */
    lemma EvalWithin(dir: Vec3, lo: Vec3, hi: Vec3)
      requires IsSqrt(lib.sqrt) && Dot(dir, dir) > 0.0
      requires IsValid(img) && PixelsWithin(img, lo, hi)
      ensures Within(Eval(dir), lo, hi)
    {
      var uv := DirToUV(Normalize(dir, lib.sqrt), lib);
      SampleBilinearWithin(img, uv.x, uv.y, lo, hi);
    }

    /**
     * The density conversion from the unit square to solid angle:
     * pdfUV / (2 pi^2 sin theta).
     */
    static function SolidAnglePdf(pdfUV: real, sinTheta: real): (p: real)
      requires sinTheta > 0.0
      ensures pdfUV > 0.0 ==> p > 0.0
    {
      pdfUV / (2.0 * Pi * Pi * sinTheta)
    }

    /**
     * sample: wiIn is the caller's direction, returned unchanged when the
     * sampler gives up before choosing one.  No distribution, a
     * non-positive uv density or a non-positive sin theta give black with
     * density 0; otherwise the radiance at the sampled uv, its direction
     * and the solid-angle density.
     */
    function Sample(u: Point2, wiIn: Vec3): (r: EnvSample)
      reads this
      requires Shaped()
      ensures r.pdfW >= 0.0
      ensures r.pdfW == 0.0 ==> r.le == Black
      ensures dist.None? ==> r == EnvSample(Black, wiIn, 0.0)
    {
      if !IsValid(img) || dist.None? then EnvSample(Black, wiIn, 0.0)
      else
        var s := SampleContinuous2D(dist.value, u);
        if s.pdf <= 0.0 then EnvSample(Black, wiIn, 0.0)
        else
          var uSph := s.uv.x;
          var vSph := 1.0 - s.uv.y;
          var wi := UvToDir(uSph, vSph, lib);
          var le := SampleBilinear(img, uSph, vSph);
          var sinTheta := SinThetaFromV(vSph, lib);
          if sinTheta <= 0.0 then EnvSample(Black, wi, 0.0)
          else EnvSample(le, wi, SolidAnglePdf(s.pdf, sinTheta))
    }

    /**
     * pdf: 0 without a distribution, for a non-positive uv density or a
     * non-positive sin theta; otherwise the uv density at the direction's
     * (u, 1 - v) converted to solid angle.
     */
    function Pdf(wi: Vec3): (p: real)
      reads this
      requires Shaped() && IsSqrt(lib.sqrt) && Dot(wi, wi) > 0.0
      ensures p >= 0.0
      ensures dist.None? ==> p == 0.0
    {
      if !IsValid(img) || dist.None? then 0.0
      else
        var uv := DirToUV(Normalize(wi, lib.sqrt), lib);
        var vImg := 1.0 - uv.y;
        var pdfUV := Pdf2D(dist.value, Point2(uv.x, vImg));
        if pdfUV <= 0.0 then 0.0
        else
          var sinTheta := SinThetaFromV(uv.y, lib);
          if sinTheta <= 0.0 then 0.0 else SolidAnglePdf(pdfUV, sinTheta)
    }

    /**
     * Under the library laws and for u strictly inside the unit square, a
     * valid map's sample always succeeds with positive density, its
     * direction is a unit vector, pdf gives back exactly the density sample
     * reported, and eval gives back exactly the radiance it reported.
     */
    lemma SamplePdfConsistent(u: Point2, wiIn: Vec3)
      requires Valid() && Laws(lib) && IsValid(img) && 0.0 < u.x && 0.0 < u.y
      ensures var r := Sample(u, wiIn);
        r.pdfW > 0.0 && Dot(r.wi, r.wi) == 1.0 &&
        Pdf(r.wi) == r.pdfW && Eval(r.wi) == r.le
    {
      UvSampleFacts(u);
      var s := SampleContinuous2D(dist.value, u);
      var uSph, vSph := s.uv.x, 1.0 - s.uv.y;
      UvDirRoundTrip(uSph, vSph, lib);
      assert SinThetaFromV(vSph, lib) > 0.0;
      ConsistentAtSample(u, wiIn, s, uSph, vSph);
    }

    /**
     * With non-negative weights the uv sample of a valid map lies strictly
     * inside the unit square (for u > 0), has positive density, and Pdf2D
     * gives that density back.
     */
    lemma UvSampleFacts(u: Point2)
      requires Valid() && SinNonNegative(lib) && IsValid(img) && 0.0 < u.x && 0.0 < u.y
      ensures var s := SampleContinuous2D(dist.value, u);
        0.0 < s.uv.x < 1.0 && 0.0 < s.uv.y < 1.0 && s.pdf > 0.0 &&
        Pdf2D(dist.value, s.uv) == s.pdf
    {
      WeightsNonNegative(img, lib);
      MakeRegular(Weights(img, lib), img.width, img.height);
      SampleInUnitSquare(dist.value, u);
      SamplePdfRoundTrip(dist.value, u);
    }

    /**
     * The conclusion of SamplePdfConsistent once the uv sample is known to
     * have a positive density that Pdf2D gives back, and its direction to
     * be a unit vector that dirToUV maps back to its uv.
     */
    lemma ConsistentAtSample(u: Point2, wiIn: Vec3, s: Sample2D, uSph: real, vSph: real)
      requires Shaped() && dist.Some? && IsValid(img) && IsSqrt(lib.sqrt)
      requires s == SampleContinuous2D(dist.value, u) && s.pdf > 0.0
      requires Pdf2D(dist.value, s.uv) == s.pdf
      requires uSph == s.uv.x && vSph == 1.0 - s.uv.y
      requires Dot(UvToDir(uSph, vSph, lib), UvToDir(uSph, vSph, lib)) == 1.0
      requires Normalize(UvToDir(uSph, vSph, lib), lib.sqrt) == UvToDir(uSph, vSph, lib)
      requires DirToUV(Normalize(UvToDir(uSph, vSph, lib), lib.sqrt), lib) == Point2(uSph, vSph)
      requires SinThetaFromV(vSph, lib) > 0.0
      ensures var r := Sample(u, wiIn);
        r.pdfW > 0.0 && Dot(r.wi, r.wi) == 1.0 &&
        Pdf(r.wi) == r.pdfW && Eval(r.wi) == r.le
    {
      assert Point2(uSph, 1.0 - vSph) == s.uv;
      SampleSucceeds(u, wiIn, s);
      PdfAtUV(UvToDir(uSph, vSph, lib), Point2(uSph, vSph), s.pdf);
    }

    /** What sample returns once the uv sample has positive density and a positive sin theta. */
    lemma SampleSucceeds(u: Point2, wiIn: Vec3, s: Sample2D)
      requires Shaped() && dist.Some? && IsValid(img)
      requires s == SampleContinuous2D(dist.value, u) && s.pdf > 0.0
      requires SinThetaFromV(1.0 - s.uv.y, lib) > 0.0
      ensures Sample(u, wiIn) ==
        EnvSample(SampleBilinear(img, s.uv.x, 1.0 - s.uv.y), UvToDir(s.uv.x, 1.0 - s.uv.y, lib),
                  SolidAnglePdf(s.pdf, SinThetaFromV(1.0 - s.uv.y, lib)))
    {
    }

    /**
     * pdf and eval at a direction whose uv is known: with a positive uv
     * density at (u, 1 - v) and a positive sin theta, the solid-angle
     * density of that uv density, and the bilinear lookup at uv.
     */
    lemma PdfAtUV(wi: Vec3, uv: Point2, pdfUV: real)
      requires Shaped() && dist.Some? && IsValid(img) && IsSqrt(lib.sqrt) && Dot(wi, wi) > 0.0
      requires Shaped2D(dist.value) && DirToUV(Normalize(wi, lib.sqrt), lib) == uv
      requires Pdf2D(dist.value, Point2(uv.x, 1.0 - uv.y)) == pdfUV && pdfUV > 0.0
      requires SinThetaFromV(uv.y, lib) > 0.0
      ensures Pdf(wi) == SolidAnglePdf(pdfUV, SinThetaFromV(uv.y, lib))
      ensures Eval(wi) == SampleBilinear(img, uv.x, uv.y)
    {
    }
  }

  datatype EnvSample = EnvSample(le: Spectrum, wi: Vec3, pdfW: real)
}
