/**
 * The cover image preparation of `_prepare_cover`: conversion to RGB, the
 * optional centred square crop of `_center_square_crop`, and the optional
 * downscale that brings the longer side to `max_size`. Only the image's
 * size and colour mode are modelled; pixels are not.
 */
module Cover {
  import opened Wrappers

  /** What the preparation can observe of an image: its size and whether its mode is already `RGB`. */
  datatype Image = Image(width: nat, height: nat, rgb: bool)

  /** A crop box `(left, top, right, bottom)` as PIL's `crop` takes it. */
  datatype Box = Box(left: int, top: int, right: int, bottom: int)

  function Min(a: int, b: int): int { if a <= b then a else b }
  function Max(a: int, b: int): int { if a >= b then a else b }

  /**
   * The box `_center_square_crop` cuts: a square of side `min(w, h)`,
   * offset by half the excess on each axis, rounded down.
   */
  function SquareBox(w: nat, h: nat): (b: Box)
    ensures 0 <= b.left <= b.right <= w && 0 <= b.top <= b.bottom <= h
    ensures b.right - b.left == b.bottom - b.top == Min(w, h)
    ensures b.left <= w - b.right <= b.left + 1 && b.top <= h - b.bottom <= b.top + 1
  {
    var side := Min(w, h);
    var left := (w - side) / 2;
    var top := (h - side) / 2;
    Box(left, top, left + side, top + side)
  }

  /**
   * The crop box is the only box inside the image that is a square of side
   * `min(w, h)` and leaves as much on the left (top) as on the right
   * (bottom), or one pixel less.
   */
  lemma SquareBoxUnique(w: nat, h: nat, b: Box)
    requires 0 <= b.left && b.right <= w && 0 <= b.top && b.bottom <= h
    requires b.right - b.left == b.bottom - b.top == Min(w, h)
    requires b.left <= w - b.right <= b.left + 1 && b.top <= h - b.bottom <= b.top + 1
    ensures b == SquareBox(w, h)
  {
  }

  /** `_center_square_crop`: a square image is returned as it is, any other is cut to its centred square. */
  function CenterSquareCrop(img: Image): (r: Image)
    ensures r.width == r.height == Min(img.width, img.height)
    ensures r.rgb == img.rgb
    ensures img.width == img.height ==> r == img
  {
    if img.width == img.height then img
    else
      var b := SquareBox(img.width, img.height);
      Image(b.right - b.left, b.bottom - b.top, img.rgb)
  }

  /**
   * The target size of the downscale step: the longer side (the width
   * when both are equal) becomes `maxSize`, the other side is scaled by
   * the same ratio and rounded down; nothing changes when `maxSize` is not
   * positive or the longer side does not exceed it.
   */
  function Downscale(w: nat, h: nat, maxSize: int): (r: (nat, nat))
    ensures r.0 <= w && r.1 <= h
    ensures maxSize > 0 ==> r.0 <= maxSize && r.1 <= maxSize
  {
    if maxSize <= 0 || Max(w, h) <= maxSize then (w, h)
    else if w >= h then ScaledNat(h, maxSize, w); FloorScale(h, maxSize, w); (maxSize, h * maxSize / w)
    else ScaledNat(w, maxSize, h); FloorScale(w, maxSize, h); (w * maxSize / h, maxSize)
  }

  /** Scaling a size by a positive ratio gives a size. */
  lemma ScaledNat(x: nat, m: nat, d: nat)
    requires d > 0
    ensures x * m / d >= 0
  {
    assert x * m >= 0;
  }

  /**
   * The downscale keeps small images, brings the longer side of large
   * ones to exactly `maxSize`, and scales the other side by the same
   * ratio, rounded down.
   */
  lemma DownscaleSpec(w: nat, h: nat, maxSize: int)
    ensures var (nw, nh) := Downscale(w, h, maxSize);
      && (maxSize <= 0 || Max(w, h) <= maxSize ==> nw == w && nh == h)
      && (maxSize > 0 && Max(w, h) > maxSize ==>
            && Max(nw, nh) == maxSize
            && (w >= h ==> nw == maxSize && nh * w <= h * maxSize < (nh + 1) * w)
            && (w < h ==> nh == maxSize && nw * h <= w * maxSize < (nw + 1) * h))
      && nw <= w && nh <= h
  {
    var (nw, nh) := Downscale(w, h, maxSize);
    if maxSize > 0 && Max(w, h) > maxSize {
      if w >= h {
        FloorScale(h, maxSize, w);
      } else {
        FloorScale(w, maxSize, h);
      }
    }
  }

  /** `x * m / d` is the floor of the exact quotient, and no larger than `x` or `m` when `x <= d` and `m <= d`. */
  lemma FloorScale(x: nat, m: nat, d: nat)
    requires 0 < d && x <= d && m <= d
    ensures x * m / d * d <= x * m < (x * m / d + 1) * d
    ensures x * m / d <= x && x * m / d <= m
  {
    var q := x * m / d;
    DivFacts(x * m, d);
    MulMono(m, d, x);
    assert x * m <= x * d;
    MulCancel(q, x, d);
    MulMono(x, d, m);
    assert q * d <= m * d;
    MulCancel(q, m, d);
  }

  lemma MulCancel(a: int, b: int, d: int)
    requires d > 0 && a * d <= b * d
    ensures a <= b
  {
  }

  lemma MulCancelStrict(a: int, b: int, d: int)
    requires d > 0 && a * d < b * d
    ensures a < b
  {
  }

  lemma MulMono(a: nat, b: nat, c: nat)
    requires a <= b
    ensures a * c <= b * c
  {
  }

  /** Integer division rounds down. */
  lemma DivFacts(n: nat, d: nat)
    requires d > 0
    ensures n / d * d <= n < (n / d + 1) * d
  {
    assert n == d * (n / d) + n % d;
  }

  /** A quotient is zero exactly when the dividend is below the divisor. */
  lemma DivZero(n: nat, d: nat)
    requires d > 0
    ensures n / d == 0 <==> n < d
  {
    var q := n / d;
    DivFacts(n, d);
    if n < d {
      MulCancelStrict(q, 1, d);
    } else {
      MulCancelStrict(1, q + 1, d);
    }
  }

  /** Multiplying by `d` and dividing by `d` gives the number back. */
  lemma MulDiv(a: nat, d: nat)
    requires d > 0
    ensures a * d / d == a
  {
    var q := a * d / d;
    DivFacts(a * d, d);
    MulCancel(q, a, d);
    MulCancelStrict(a, q + 1, d);
  }

  /** Downscaling twice with the same limit is the same as downscaling once. */
  lemma DownscaleIdempotent(w: nat, h: nat, maxSize: int)
    ensures var (nw, nh) := Downscale(w, h, maxSize);
      Downscale(nw, nh, maxSize) == (nw, nh)
  {
    DownscaleSpec(w, h, maxSize);
  }

  /** A square keeps its shape: it is left alone or brought to `maxSize` on both sides. */
  lemma DownscaleSquare(side: nat, maxSize: int)
    ensures Downscale(side, side, maxSize) == if maxSize <= 0 || side <= maxSize then (side, side) else (maxSize, maxSize)
  {
    if maxSize > 0 && side > maxSize {
      assert side * maxSize == maxSize * side;
      MulDiv(maxSize, side);
    }
  }

  /** The image after the RGB conversion and the optional crop, before the downscale. */
  function Cropped(img: Image, squareCrop: bool): (r: Image)
    ensures r.rgb
    ensures squareCrop ==> r.width == r.height == Min(img.width, img.height)
    ensures !squareCrop ==> r.width == img.width && r.height == img.height
  {
    var converted := Image(img.width, img.height, true);
    if squareCrop then CenterSquareCrop(converted) else converted
  }

  /**
   * `_prepare_cover`: RGB, then the centred square crop when asked, then
   * the downscale when `maxSize` is positive. `None` stands for the resize
   * that PIL refuses because a side would be zero; the save loop reports
   * it as a failed write.
   */
  function PrepareCover(img: Image, squareCrop: bool, maxSize: int): (r: Option<Image>)
    ensures r.Some? ==> r.value.rgb
    ensures maxSize <= 0 ==> r == Some(Cropped(img, squareCrop))
  {
    var c := Cropped(img, squareCrop);
    var (nw, nh) := Downscale(c.width, c.height, maxSize);
    if (nw, nh) == (c.width, c.height) then Some(c)
    else if nw == 0 || nh == 0 then None
    else Some(Image(nw, nh, true))
  }

  /**
   * The prepared cover is RGB, no larger than the source on either side,
   * square when cropping was asked for, and within `maxSize` on both sides
   * when that is positive.
   */
  lemma PrepareCoverShape(img: Image, squareCrop: bool, maxSize: int)
    requires PrepareCover(img, squareCrop, maxSize).Some?
    ensures var r := PrepareCover(img, squareCrop, maxSize).value;
      && r.rgb
      && r.width <= img.width && r.height <= img.height
      && (squareCrop ==> r.width == r.height)
      && (maxSize > 0 ==> r.width <= maxSize && r.height <= maxSize)
  {
    var c := Cropped(img, squareCrop);
    DownscaleSpec(c.width, c.height, maxSize);
    if squareCrop {
      DownscaleSquare(c.width, maxSize);
    }
  }

  /**
   * Preparation fails exactly when no crop is asked for, a downscale is
   * due, and the shorter side would shrink below one pixel.
   */
  lemma PrepareCoverFails(img: Image, squareCrop: bool, maxSize: int)
    ensures PrepareCover(img, squareCrop, maxSize).None? <==>
      !squareCrop && maxSize > 0 && Max(img.width, img.height) > maxSize
      && Min(img.width, img.height) * maxSize < Max(img.width, img.height)
  {
    var c := Cropped(img, squareCrop);
    if squareCrop {
      DownscaleSquare(c.width, maxSize);
    } else if maxSize > 0 && Max(img.width, img.height) > maxSize {
      var w, h := img.width, img.height;
      if w >= h {
        DivZero(h * maxSize, w);
      } else {
        DivZero(w * maxSize, h);
      }
    }
  }

  /** A 400x300 image is cut to the 300x300 square starting 50 pixels from the left. */
  lemma ExampleCrop()
    ensures SquareBox(400, 300) == Box(50, 0, 350, 300)
    ensures CenterSquareCrop(Image(400, 300, true)) == Image(300, 300, true)
  {
  }

  /** A 1000x500 image with a limit of 500 becomes 500x250; a limit of 0 leaves it alone. */
  lemma ExampleDownscale()
    ensures Downscale(1000, 500, 500) == (500, 250)
    ensures Downscale(1000, 500, 0) == (1000, 500)
    ensures PrepareCover(Image(1000, 500, false), false, 500) == Some(Image(500, 250, true))
  {
    assert Cropped(Image(1000, 500, false), false) == Image(1000, 500, true);
  }

  /** Cropping comes before the downscale: a 3x2 image limited to 2 becomes 2x2 ... */
  lemma ExampleCropFirst()
    ensures PrepareCover(Image(3, 2, true), true, 2) == Some(Image(2, 2, true))
  {
    assert Cropped(Image(3, 2, true), true) == Image(2, 2, true);
    DownscaleSquare(2, 2);
  }

  /** ... where downscaling first would have given 2x1 ... */
  lemma ExampleScaleFirst()
    ensures Downscale(3, 2, 2) == (2, 1)
  {
    DivFacts(4, 3);
  }

  /** ... and cropping that 1x1. */
  lemma ExampleCropAfterScale()
    ensures CenterSquareCrop(Image(2, 1, true)) == Image(1, 1, true)
  {
  }
}
