/**
  The flag overlay of the "made in China" avatar page: a square is cut out
  of the flag (the part holding the stars) and its opacity is faded with the
  distance from the square's top-left corner.

  Images are stored column by column: `img[x][y]` is the pixel in column `x`
  and row `y`, the pixel the imaging library addresses as `(x, y)`.
 */
module FlagFade {

  type Byte = v: int | 0 <= v < 256

  /** An RGBA colour, each channel a byte. */
  datatype Pixel = Pixel(red: Byte, green: Byte, blue: Byte, alpha: Byte)
  {
    /** The same colour with its alpha channel replaced. */
    function WithAlpha(a: Byte): Pixel
    {
      Pixel(red, green, blue, a)
    }

    /** Same red, green and blue channels, whatever the alphas. */
    predicate SameColour(other: Pixel)
    {
      red == other.red && green == other.green && blue == other.blue
    }
  }

  /** What the crop shows where the box reaches past the source image. */
  const Transparent := Pixel(0, 0, 0, 0)

  /** Horizontal offset of the crop box inside the flag. */
  const CropLeft := 66

  /** `img` is `width` columns of `height` pixels each. */
  ghost predicate IsImage(img: seq<seq<Pixel>>, width: int, height: int)
  {
    |img| == width && forall x | 0 <= x < width :: |img[x]| == height
  }

  /** The pixel at `(x, y)`, or `Transparent` outside the image. */
  function PixelOr(img: seq<seq<Pixel>>, width: nat, height: nat, x: int, y: int): Pixel
    requires IsImage(img, width, height)
  {
    if 0 <= x < width && 0 <= y < height then img[x][y] else Transparent
  }

  /**
    Cuts the box `(left, upper, right, lower)` out of an image. The result is
    `right - left` by `lower - upper`; pixels of the box that fall outside
    the source are transparent black.
   */
  function Crop(img: seq<seq<Pixel>>, width: nat, height: nat,
                left: int, upper: int, right: int, lower: int): (r: seq<seq<Pixel>>)
    requires IsImage(img, width, height)
    requires left <= right && upper <= lower
    ensures IsImage(r, right - left, lower - upper)
    ensures forall x, y | 0 <= x < right - left && 0 <= y < lower - upper ::
              r[x][y] == PixelOr(img, width, height, left + x, upper + y)
  {
    seq(right - left, x requires 0 <= x < right - left =>
      seq(lower - upper, y requires 0 <= y < lower - upper =>
        PixelOr(img, width, height, left + x, upper + y)))
  }

  /**
    The square cut out of the flag: the box `(66, 0, h + 66, h)` for a flag
    of height `h`.
   */
  function CropEmblem(flag: seq<seq<Pixel>>, width: nat, height: nat): (r: seq<seq<Pixel>>)
    requires IsImage(flag, width, height)
    ensures IsImage(r, height, height)
    ensures forall x, y | 0 <= x < height && 0 <= y < height ::
              r[x][y] == PixelOr(flag, width, height, CropLeft + x, y)
  {
    Crop(flag, width, height, CropLeft, 0, height + CropLeft, height)
  }

  /** Integer square root: the largest `r` with `r * r <= n`. */
  function Isqrt(n: nat): (r: nat)
    ensures r * r <= n < (r + 1) * (r + 1)
    decreases n
  {
    if n < 4 then
      if n == 0 then 0 else 1
    else
      var t := Isqrt(n / 4);
      var s := 2 * t;
      SquareRootStep(n, t);
      if (s + 1) * (s + 1) <= n then s + 1 else s
  }

  /** Doubling the root of `n / 4` lands within one of the root of `n`. */
  lemma SquareRootStep(n: nat, t: nat)
    requires t * t <= n / 4 < (t + 1) * (t + 1)
    ensures (2 * t) * (2 * t) <= n < (2 * t + 2) * (2 * t + 2)
  {
    var q := n / 4;
    assert n == 4 * q + n % 4;
    assert (2 * t) * (2 * t) == 4 * (t * t);
    assert (2 * t + 2) * (2 * t + 2) == 4 * ((t + 1) * (t + 1));
    assert (t + 1) * (t + 1) >= q + 1;
  }

  /** Whole-pixel distance of `(x, y)` from the corner `(0, 0)`. */
  function Distance(x: nat, y: nat): nat
  {
    Isqrt(x * x + y * y)
  }

  /** `floor(d / key)` brackets `d` between consecutive multiples of `key`. */
  lemma FloorDivBounds(d: real, key: real, steps: int)
    requires d >= 0.0 && key > 0.0
    requires steps == (d / key).Floor
    ensures steps >= 0
    ensures steps as real * key <= d < steps as real * key + key
  {
    var q := d / key;
    assert q * key == d;
    var f := steps as real;
    assert f <= q < f + 1.0;
    MulMonotone(f, q, key);
    BracketAbove(d, key, q, f);
  }

  lemma BracketAbove(d: real, key: real, q: real, f: real)
    requires key > 0.0 && q * key == d
    requires q < f + 1.0
    ensures d < f * key + key
  {
    MulStrict(q, f + 1.0, key);
    assert q * key < (f + 1.0) * key;
    assert (f + 1.0) * key == f * key + 1.0 * key;
  }

  lemma MulMonotone(a: real, b: real, k: real)
    requires a <= b && k >= 0.0
    ensures a * k <= b * k
  {
  }

  lemma MulStrict(a: real, b: real, k: real)
    requires a < b && k > 0.0
    ensures a * k < b * k
  {
  }

  /**
    The alpha given to a pixel at distance `d`: 255 minus the number of
    whole `key`-steps in `d`, and 0 once that would drop to 0 or below.
   */
  function Alpha(d: nat, key: real): Byte
    requires key > 0.0
  {
    var steps := (d as real / key).Floor;
    StepsBound(d, key, steps);
    if 255 - steps > 0 then 255 - steps else 0
  }

  /**
    What the alpha means: a positive alpha `a` says that `d` holds exactly
    `255 - a` whole `key`-steps; alpha 0 says that `d` holds 255 or more.
   */
  lemma AlphaCountsKeySteps(d: nat, key: real)
    requires key > 0.0
    ensures var a := Alpha(d, key);
            && 0 <= a <= 255
            && (a > 0 ==> (255 - a) as real * key <= d as real < (255 - a) as real * key + key)
            && (a == 0 <==> d as real >= 255.0 * key)
  {
    StepsBound(d, key, (d as real / key).Floor);
  }

  /** The number of whole `key`-steps in `d` reaches 255 exactly when `d >= 255 * key`. */
  lemma StepsBound(d: nat, key: real, steps: int)
    requires key > 0.0
    requires steps == (d as real / key).Floor
    ensures steps >= 0
    ensures steps as real * key <= d as real < steps as real * key + key
    ensures steps >= 255 <==> d as real >= 255.0 * key
  {
    FloorDivBounds(d as real, key, steps);
    StepsReach255(d as real, key, steps, steps as real * key);
  }

  /** For `d` between `steps * key` and the next multiple of `key`, `steps >= 255` iff `d >= 255 * key`. */
  lemma StepsReach255(d: real, key: real, steps: int, low: real)
    requires key > 0.0 && steps >= 0
    requires low == steps as real * key
    requires low <= d < low + key
    ensures steps >= 255 <==> d >= 255.0 * key
  {
    if steps >= 255 {
      MulMonotone(255.0, steps as real, key);
    } else {
      MulMonotone(steps as real, 254.0, key);
      BelowNextStep(d, low, 254.0 * key, key);
    }
  }

  lemma BelowNextStep(d: real, low: real, bound: real, key: real)
    requires d < low + key && low <= bound
    ensures d < bound + key
  {
  }

  /** The new colour of pixel `(x, y)` of the square. */
  function FadePixel(p: Pixel, x: nat, y: nat, key: real): (q: Pixel)
    requires key > 0.0
    ensures q.SameColour(p)
    ensures q.alpha == Alpha(Distance(x, y), key)
  {
    p.WithAlpha(Alpha(Distance(x, y), key))
  }

  /**
    Fades an `h` by `h` square in place, column by column and, inside a
    column, row by row. Each step reads the pixel it is about to overwrite.
   */
  method FadeSquare(square: seq<seq<Pixel>>, h: nat, key: real) returns (out: seq<seq<Pixel>>)
    requires IsImage(square, h, h)
    requires key > 0.0
    ensures IsImage(out, h, h)
    ensures forall x, y | 0 <= x < h && 0 <= y < h ::
              out[x][y] == FadePixel(square[x][y], x, y, key)
  {
    out := square;
    var i := 0;
    while i < h
      invariant 0 <= i <= h
      invariant IsImage(out, h, h)
      invariant forall x, y | 0 <= x < i && 0 <= y < h ::
                  out[x][y] == FadePixel(square[x][y], x, y, key)
      invariant forall x | i <= x < h :: out[x] == square[x]
    {
      var j := 0;
      while j < h
        invariant 0 <= j <= h
        invariant IsImage(out, h, h)
        invariant forall x, y | 0 <= x < i && 0 <= y < h ::
                    out[x][y] == FadePixel(square[x][y], x, y, key)
        invariant forall x | i < x < h :: out[x] == square[x]
        invariant forall y | 0 <= y < j :: out[i][y] == FadePixel(square[i][y], i, y, key)
        invariant forall y | j <= y < h :: out[i][y] == square[i][y]
      {
        var colour := out[i][j];
        var distance := Isqrt(i * i + j * j);
        var alpha := Alpha(distance, key);
        out := out[i := out[i][j := colour.WithAlpha(alpha)]];
        j := j + 1;
      }
      i := i + 1;
    }
  }

  /**
    The overlay before resizing: the square cut from the flag, faded. Its
    side is the flag's height, its corner is fully opaque, and its colours
    are the flag's (or transparent black past the flag's right edge).
   */
  method MakeOverlay(flag: seq<seq<Pixel>>, width: nat, height: nat, key: real)
    returns (overlay: seq<seq<Pixel>>)
    requires IsImage(flag, width, height)
    requires key > 0.0
    ensures IsImage(overlay, height, height)
    ensures height > 0 ==> overlay[0][0].alpha == 255
    ensures forall x, y | 0 <= x < height && 0 <= y < height ::
              overlay[x][y] == FadePixel(PixelOr(flag, width, height, CropLeft + x, y), x, y, key)
  {
    var square := CropEmblem(flag, width, height);
    overlay := FadeSquare(square, height, key);
    forall x, y | 0 <= x < height && 0 <= y < height
      ensures overlay[x][y] == FadePixel(PixelOr(flag, width, height, CropLeft + x, y), x, y, key)
    {
      assert square[x][y] == PixelOr(flag, width, height, CropLeft + x, y);
    }
    if height > 0 {
      var corner := overlay[0][0];
      assert corner == FadePixel(square[0][0], 0, 0, key);
      FadedCornerIsOpaque(square[0][0], key);
    }
  }

  /** The corner pixel sits at distance 0 and keeps full opacity. */
  lemma FadedCornerIsOpaque(p: Pixel, key: real)
    requires key > 0.0
    ensures Distance(0, 0) == 0
    ensures FadePixel(p, 0, 0, key).alpha == 255
  {
    assert Isqrt(0) == 0;
    assert 0.0 / key == 0.0;
  }

  /** Farther pixels are never more opaque than nearer ones. */
  lemma AlphaNonIncreasingInDistance(d1: nat, d2: nat, key: real)
    requires key > 0.0
    requires d1 <= d2
    ensures Alpha(d1, key) >= Alpha(d2, key)
  {
    var s1 := (d1 as real / key).Floor;
    var s2 := (d2 as real / key).Floor;
    StepsBound(d1, key, s1);
    StepsBound(d2, key, s2);
    assert (s2 + 1) as real * key == s2 as real * key + key;
    if s1 > s2 {
      MulMonotone((s2 + 1) as real, s1 as real, key);
      assert false;
    }
    assert Alpha(d1, key) == if 255 - s1 > 0 then 255 - s1 else 0;
    assert Alpha(d2, key) == if 255 - s2 > 0 then 255 - s2 else 0;
  }

  /** A larger key makes the fade slower: no pixel loses opacity. */
  lemma AlphaNonDecreasingInKey(d: nat, key1: real, key2: real)
    requires 0.0 < key1 <= key2
    ensures Alpha(d, key1) <= Alpha(d, key2)
  {
    var q1 := d as real / key1;
    var q2 := d as real / key2;
    assert q1 * key1 == d as real;
    assert q2 * key2 == d as real;
    MulMonotone(key1, key2, q2);
    assert q2 * key1 <= q1 * key1;
    if q2 > q1 {
      MulStrict(q1, q2, key1);
      assert false;
    }
  }
}
