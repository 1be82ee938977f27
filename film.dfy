// The film: a width x height grid of radiance values stored row-major, with
// a bounds-checked pixel write and the per-pixel conversion to 8-bit
// output (Reinhard tone mapping, gamma, clamp and quantisation).  The gamma
// curve is a parameter; choosing a file format and writing it are outside
// this model.
module Films {
  import opened Types
  import opened RtMath
  import Images

  /** Reinhard tone mapping of one channel: c / (c + 1). */
  function Reinhard(c: real): (r: real)
    requires c != -1.0
    ensures c >= 0.0 ==> 0.0 <= r < 1.0
  {
    c / (c + 1.0)
  }

  /** Tone mapping keeps the order of non-negative radiances. */
  lemma ReinhardMonotone(a: real, b: real)
    requires 0.0 <= a <= b
    ensures Reinhard(a) <= Reinhard(b)
  {
    var ra, rb := Reinhard(a), Reinhard(b);
    assert ra * (a + 1.0) == a && rb * (b + 1.0) == b;
    assert (rb - ra) * ((a + 1.0) * (b + 1.0)) == b - a;
    MulPos(a + 1.0, b + 1.0);
    if rb - ra < 0.0 {
      MulPos(ra - rb, (a + 1.0) * (b + 1.0));
    }
  }

  /** Quantisation of one channel: truncate 255.99 times the saturated value. */
  function Quantize(v: real): (b: int)
    ensures 0 <= b <= 255
    ensures v <= 0.0 ==> b == 0
    ensures v >= 1.0 ==> b == 255
  {
    Trunc(255.99 * Saturate(v))
  }

  /** A brighter channel never gets a smaller byte. */
  lemma QuantizeMonotone(a: real, b: real)
    requires a <= b
    ensures Quantize(a) <= Quantize(b)
  {
    var sa, sb := Saturate(a), Saturate(b);
    assert sa <= sb;
    assert 255.99 * sa <= 255.99 * sb;
  }

  /** The byte one linear channel becomes: tone map, gamma, quantise. */
  function LdrChannel(c: real, gamma: real -> real): (b: int)
    requires c != -1.0
    ensures 0 <= b <= 255
  {
    Quantize(gamma(Reinhard(c)))
  }

  /**
   * With a gamma curve that is monotone on [0, 1), a brighter non-negative
   * channel never gets a smaller byte.
   */
  lemma LdrChannelMonotone(a: real, b: real, gamma: real -> real)
    requires 0.0 <= a <= b
    requires forall s, t :: 0.0 <= s <= t < 1.0 ==> gamma(s) <= gamma(t)
    ensures LdrChannel(a, gamma) <= LdrChannel(b, gamma)
  {
    ReinhardMonotone(a, b);
    QuantizeMonotone(gamma(Reinhard(a)), gamma(Reinhard(b)));
  }

  /** No channel sits at the pole -1 of the tone-mapping curve. */
  predicate NoPole(p: Spectrum)
  {
    p.x != -1.0 && p.y != -1.0 && p.z != -1.0
  }

  class Film {
    const width: int
    const height: int
    const pixels: array<Spectrum>

    /** The pixel buffer holds width * height values. */
    ghost predicate Valid()
    {
      pixels.Length == width * height
    }

    /** A film of the given resolution with every pixel black. */
    constructor (width: int, height: int)
      requires width * height >= 0
      ensures this.width == width && this.height == height && Valid()
      ensures forall i :: 0 <= i < pixels.Length ==> pixels[i] == Black
      ensures fresh(pixels)
    {
      this.width := width;
      this.height := height;
      pixels := new Spectrum[width * height](_ => Black);
    }

    /**
     * setPixel: outside the film nothing happens; inside, the pixel at
     * y * width + x becomes radiance and no other pixel changes.
     */
    method SetPixel(x: int, y: int, radiance: Spectrum)
      requires Valid()
      modifies pixels
      ensures !(0 <= x < width && 0 <= y < height) ==> pixels[..] == old(pixels[..])
      ensures 0 <= x < width && 0 <= y < height ==>
        0 <= y * width + x < pixels.Length &&
        pixels[..] == old(pixels[..])[y * width + x := radiance]
    {
      if x < 0 || x >= width || y < 0 || y >= height {
        return;
      }
      Images.IndexInside(width, height, x, y);
      pixels[y * width + x] := radiance;
    }

    /** Byte k of the 8-bit output: channel k % 3 of pixel k / 3, converted. */
    static function LdrByte(px: seq<Spectrum>, k: int, gamma: real -> real): (b: int)
      requires 0 <= k < 3 * |px| && NoPole(px[k / 3])
      ensures 0 <= b <= 255
    {
      var p := px[k / 3];
      var c := k % 3;
      LdrChannel(if c == 0 then p.x else if c == 1 then p.y else p.z, gamma)
    }

    /** The 8-bit output of a pixel sequence: three bytes per pixel, in pixel order. */
    static function LdrBytes(px: seq<Spectrum>, gamma: real -> real): (d: seq<int>)
      requires forall i :: 0 <= i < |px| ==> NoPole(px[i])
      ensures |d| == 3 * |px|
    {
      seq(3 * |px|, k requires 0 <= k < 3 * |px| => LdrByte(px, k, gamma))
    }

    /** Pixel i's bytes hold its three converted channels. */
    static ghost predicate PixelBytes(d: seq<int>, px: seq<Spectrum>, i: int, gamma: real -> real)
      requires 0 <= i < |px| && |d| == 3 * |px| && NoPole(px[i])
    {
      d[3 * i] == LdrChannel(px[i].x, gamma) &&
      d[3 * i + 1] == LdrChannel(px[i].y, gamma) &&
      d[3 * i + 2] == LdrChannel(px[i].z, gamma)
    }

    /** In the 8-bit output, pixel i's bytes are its converted channels and every byte lies in 0..255. */
    static lemma LdrBytesLayout(px: seq<Spectrum>, gamma: real -> real, i: int)
      requires forall j :: 0 <= j < |px| ==> NoPole(px[j])
      requires 0 <= i < |px|
      ensures PixelBytes(LdrBytes(px, gamma), px, i, gamma)
      ensures forall k :: 0 <= k < 3 * |px| ==> 0 <= LdrBytes(px, gamma)[k] <= 255
    {
      assert (3 * i) / 3 == i && (3 * i) % 3 == 0;
      assert (3 * i + 1) / 3 == i && (3 * i + 1) % 3 == 1;
      assert (3 * i + 2) / 3 == i && (3 * i + 2) % 3 == 2;
    }

    /** Pixel j's bytes survive a change that leaves them alone. */
    static lemma PixelBytesKept(d1: seq<int>, d2: seq<int>, px: seq<Spectrum>, j: int, gamma: real -> real)
      requires 0 <= j < |px| && |d1| == |d2| == 3 * |px| && NoPole(px[j])
      requires PixelBytes(d1, px, j, gamma)
      requires d2[3 * j] == d1[3 * j] && d2[3 * j + 1] == d1[3 * j + 1] && d2[3 * j + 2] == d1[3 * j + 2]
      ensures PixelBytes(d2, px, j, gamma)
    {
    }

    /** A byte sequence whose every pixel holds its converted channels is the 8-bit output. */
    static lemma LdrBytesFromPixels(d: seq<int>, px: seq<Spectrum>, gamma: real -> real)
      requires |d| == 3 * |px| && forall i :: 0 <= i < |px| ==> NoPole(px[i])
      requires forall i :: 0 <= i < |px| ==> PixelBytes(d, px, i, gamma)
      ensures d == LdrBytes(px, gamma)
    {
      forall k | 0 <= k < |d|
        ensures d[k] == LdrBytes(px, gamma)[k]
      {
        var i, c := k / 3, k % 3;
        assert k == 3 * i + c && 0 <= i < |px|;
        assert PixelBytes(d, px, i, gamma);
      }
    }

    /** The three bytes of pixel i: tone map, gamma correct and quantise each channel. */
    static method WritePixel(data: array<int>, i: int, px: seq<Spectrum>, gamma: real -> real)
      requires 0 <= i < |px| && data.Length == 3 * |px| && NoPole(px[i])
      modifies data
      ensures PixelBytes(data[..], px, i, gamma)
      ensures forall k :: 0 <= k < 3 * i ==> data[k] == old(data[k])
    {
      var pixel := px[i];
      var toned := Vec3(Reinhard(pixel.x), Reinhard(pixel.y), Reinhard(pixel.z));
      var corrected := Vec3(gamma(toned.x), gamma(toned.y), gamma(toned.z));
      data[i * 3 + 0] := Quantize(corrected.x);
      data[i * 3 + 1] := Quantize(corrected.y);
      data[i * 3 + 2] := Quantize(corrected.z);
    }

    /**
     * The 8-bit output of save for the non-HDR formats: three bytes per
     * pixel, in pixel order, each channel tone mapped, gamma corrected and
     * quantised into 0..255.
     */
    method ToLdr(gamma: real -> real) returns (data: array<int>)
      requires Valid()
      requires forall i :: 0 <= i < pixels.Length ==> NoPole(pixels[i])
      ensures data[..] == LdrBytes(pixels[..], gamma)
    {
      var n := width * height;
      ghost var px := pixels[..];
      data := new int[n * 3];
      var i := 0;
      while i < n
        invariant 0 <= i <= n
        invariant forall j :: 0 <= j < i ==> PixelBytes(data[..], px, j, gamma)
      {
        ghost var before := data[..];
        WritePixel(data, i, pixels[..], gamma);
        forall j | 0 <= j < i
          ensures PixelBytes(data[..], px, j, gamma)
        {
          PixelBytesKept(before, data[..], px, j, gamma);
        }
        i := i + 1;
      }
      LdrBytesFromPixels(data[..], px, gamma);
    }
  }
}
