// A row-major RGB image: width, height and width * height pixels, pixel
// (x, y) stored at index y * width + x.  Writing through the mutable
// accessor is modelled as the image with that one pixel replaced.
module Images {
  import opened Types

  datatype Image = Image(width: int, height: int, pixels: seq<Vec3>)

  /** The default image: 0 x 0 with no pixels. */
  function DefaultImage(): (img: Image)
    ensures img.width == 0 && img.height == 0 && |img.pixels| == 0
    ensures !IsValid(img)
  {
    Image(0, 0, [])
  }

  /** isValid: positive dimensions and exactly width * height pixels. */
  predicate IsValid(img: Image)
  {
    img.width > 0 && img.height > 0 && |img.pixels| == img.width * img.height
  }

  /** (x, y) lies on the image. */
  predicate InBounds(img: Image, x: int, y: int)
  {
    0 <= x < img.width && 0 <= y < img.height
  }

  /** The row-major index of (x, y). */
  function PixelIndex(w: int, x: int, y: int): int
  {
    y * w + x
  }

  /**
   * On a w x h grid the row-major index is a bijection between the
   * coordinates and [0, w * h): every coordinate lands inside, distinct
   * coordinates land apart, and every index comes from (i % w, i / w).
   */
  lemma {:induction false} PixelIndexBijective(w: int, h: int)
    requires w > 0 && h > 0
    ensures forall x, y :: 0 <= x < w && 0 <= y < h ==> 0 <= PixelIndex(w, x, y) < w * h
    ensures forall x1, y1, x2, y2 ::
      (0 <= x1 < w && 0 <= y1 < h && 0 <= x2 < w && 0 <= y2 < h &&
       PixelIndex(w, x1, y1) == PixelIndex(w, x2, y2)) ==> x1 == x2 && y1 == y2
    ensures forall i :: 0 <= i < w * h ==> 0 <= i / w < h && PixelIndex(w, i % w, i / w) == i
  {
    forall x, y | 0 <= x < w && 0 <= y < h
      ensures 0 <= PixelIndex(w, x, y) < w * h
    {
      IndexInside(w, h, x, y);
    }
    forall x1, y1, x2, y2 |
      0 <= x1 < w && 0 <= y1 < h && 0 <= x2 < w && 0 <= y2 < h &&
      PixelIndex(w, x1, y1) == PixelIndex(w, x2, y2)
      ensures x1 == x2 && y1 == y2
    {
      IndexInjective(w, x1, y1, x2, y2);
    }
    forall i | 0 <= i < w * h
      ensures 0 <= i / w < h && PixelIndex(w, i % w, i / w) == i
    {
      IndexSurjective(w, h, i);
    }
  }

  /** Multiplying by a non-negative factor keeps the order. */
  lemma MulMono(a: int, b: int, w: int)
    requires w >= 0
    ensures a <= b ==> a * w <= b * w
  {
    if a <= b {
      assert b * w - a * w == (b - a) * w;
    }
  }

  lemma IndexInside(w: int, h: int, x: int, y: int)
    requires w > 0 && 0 <= x < w && 0 <= y < h
    ensures 0 <= y * w + x < w * h
  {
    MulMono(0, y, w);
    MulMono(y + 1, h, w);
    assert (y + 1) * w == y * w + w;
  }

  lemma IndexInjective(w: int, x1: int, y1: int, x2: int, y2: int)
    requires w > 0 && 0 <= x1 < w && 0 <= x2 < w && y1 * w + x1 == y2 * w + x2
    ensures x1 == x2 && y1 == y2
  {
    MulMono(y1 + 1, y2, w);
    MulMono(y2 + 1, y1, w);
    assert (y1 + 1) * w == y1 * w + w;
    assert (y2 + 1) * w == y2 * w + w;
  }

  lemma IndexSurjective(w: int, h: int, i: int)
    requires w > 0 && h > 0 && 0 <= i < w * h
    ensures 0 <= i / w < h && (i / w) * w + i % w == i
  {
    MulMono(h, i / w, w);
  }

  /** The const accessor at(x, y): no bounds check, so the caller keeps (x, y) on the image. */
  function At(img: Image, x: int, y: int): (p: Vec3)
    requires IsValid(img) && InBounds(img, x, y)
    ensures p in img.pixels
  {
    IndexInside(img.width, img.height, x, y);
    img.pixels[PixelIndex(img.width, x, y)]
  }

  /** Assignment through the mutable at(x, y): pixel (x, y) becomes v. */
  function WithPixel(img: Image, x: int, y: int, v: Vec3): (r: Image)
    requires IsValid(img) && InBounds(img, x, y)
    ensures IsValid(r) && r.width == img.width && r.height == img.height
  {
    IndexInside(img.width, img.height, x, y);
    img.(pixels := img.pixels[PixelIndex(img.width, x, y) := v])
  }

  /**
   * Reading back after a write: the written pixel holds the new value and
   * every other pixel is unchanged.
   */
  lemma AtWithPixel(img: Image, x: int, y: int, v: Vec3, x2: int, y2: int)
    requires IsValid(img) && InBounds(img, x, y) && InBounds(img, x2, y2)
    ensures At(WithPixel(img, x, y, v), x2, y2) == (if x2 == x && y2 == y then v else At(img, x2, y2))
  {
    IndexInside(img.width, img.height, x, y);
    IndexInside(img.width, img.height, x2, y2);
    if x2 != x || y2 != y {
      if PixelIndex(img.width, x, y) == PixelIndex(img.width, x2, y2) {
        IndexInjective(img.width, x, y, x2, y2);
      }
    }
  }
}
