/**
 * The pixel-buffer transforms of the barcode reader, as values.
 *
 * An `ImageData` holds `width * height` pixels in row-major order, four
 * bytes per pixel (red, green, blue, alpha).  Every transform of the image
 * processor allocates a fresh buffer; this module says, as functions on
 * pixel sequences, what that fresh buffer holds, and proves what the
 * transforms promise: grey pixels, untouched alpha, the contrast stretch
 * and its idempotence, inversion as an involution, and rotations as exact
 * pixel permutations.
 */
module PixelSpec {

  import Mul

  /** One slot of a `Uint8ClampedArray`. */
  type Byte = b: int | 0 <= b <= 255

  /** The clockwise rotations the scanner tries, in degrees. */
  type Orientation = d: int | d == 0 || d == 90 || d == 180 || d == 270

  /** The four channels of one pixel. */
  datatype Rgba = Rgba(r: Byte, g: Byte, b: Byte, a: Byte)

  /** The contents of an `ImageData`, as a value: its pixels in row-major order. */
  datatype Image = Image(width: nat, height: nat, pixels: seq<Rgba>) {
    /** What the `ImageData` constructor insists on. */
    predicate Valid() {
      width > 0 && height > 0 && |pixels| == width * height
    }
  }

  // ---------------------------------------------------------------------
  // Bytes and pixels
  // ---------------------------------------------------------------------

  /** Pixel number `q` of an interleaved RGBA byte sequence. */
  function Px(s: seq<Byte>, q: nat): Rgba
    requires 4 * q + 4 <= |s|
  {
    Rgba(s[4 * q], s[4 * q + 1], s[4 * q + 2], s[4 * q + 3])
  }

  /** The pixels an interleaved RGBA byte sequence holds. */
  function Pixels(s: seq<Byte>): (ps: seq<Rgba>)
    requires |s| % 4 == 0
    ensures |ps| == |s| / 4
    ensures forall q :: 0 <= q < |ps| ==> ps[q] == Px(s, q)
  {
    seq(|s| / 4, q requires 0 <= q < |s| / 4 => Px(s, q))
  }

  /** A byte sequence whose every pixel is given by `ps` holds exactly `ps`. */
  lemma PixelsFrom(s: seq<Byte>, ps: seq<Rgba>)
    requires |s| == 4 * |ps|
    requires forall q :: 0 <= q < |ps| ==> Px(s, q) == ps[q]
    ensures |s| % 4 == 0 && Pixels(s) == ps
  {
    Mul.QuadLength(|ps|);
  }

  /** Writing the four bytes of pixel `p` leaves every other pixel as it was. */
  lemma PixelWritten(before: seq<Byte>, after: seq<Byte>, p: nat)
    requires |after| == |before| && 4 * p + 4 <= |before|
    requires forall k :: 0 <= k < |before| && (k < 4 * p || 4 * p + 4 <= k) ==> after[k] == before[k]
    ensures forall q :: 0 <= q && 4 * q + 4 <= |before| && q != p ==> Px(after, q) == Px(before, q)
  {
  }

  /** Two byte sequences holding the same pixels are the same bytes. */
  lemma PixelsInjective(s: seq<Byte>, t: seq<Byte>)
    requires |s| % 4 == 0 && |t| % 4 == 0
    requires Pixels(s) == Pixels(t)
    ensures s == t
  {
    forall i | 0 <= i < |s|
      ensures s[i] == t[i]
    {
      var q := i / 4;
      assert Pixels(s)[q] == Pixels(t)[q];
    }
  }

  /** Every pixel has equal red, green and blue channels. */
  predicate IsGray(ps: seq<Rgba>) {
    forall q :: 0 <= q < |ps| ==> ps[q].r == ps[q].g == ps[q].b
  }

  /** `qs` has as many pixels as `ps` and the same alpha channel. */
  predicate SameAlpha(ps: seq<Rgba>, qs: seq<Rgba>) {
    |qs| == |ps| && forall q :: 0 <= q < |ps| ==> qs[q].a == ps[q].a
  }

  // ---------------------------------------------------------------------
  // Grayscale
  // ---------------------------------------------------------------------

  /**
   * The luma of a pixel, `Math.round(0.299 R + 0.587 G + 0.114 B)`, computed
   * on the exact rational weights: the nearest integer, halves rounded up.
   */
  function Luma(r: Byte, g: Byte, b: Byte): (v: Byte)
    ensures -500 <= 299 * r + 587 * g + 114 * b - 1000 * v < 500
  {
    (299 * r + 587 * g + 114 * b + 500) / 1000
  }

  /** One pixel of `toGrayscale`: R = G = B = luma, alpha copied. */
  function GrayPixel(p: Rgba): (g: Rgba)
    ensures g.r == g.g == g.b && g.a == p.a
  {
    var v := Luma(p.r, p.g, p.b);
    Rgba(v, v, v, p.a)
  }

  /** What `toGrayscale` returns. */
  function Grayscale(ps: seq<Rgba>): (qs: seq<Rgba>)
    ensures |qs| == |ps|
  {
    seq(|ps|, q requires 0 <= q < |ps| => GrayPixel(ps[q]))
  }

  /** `toGrayscale` leaves every pixel grey at its luma and every alpha as it was. */
  lemma GrayscaleIsGray(ps: seq<Rgba>)
    ensures IsGray(Grayscale(ps)) && SameAlpha(ps, Grayscale(ps))
    ensures forall q :: 0 <= q < |ps| ==> Grayscale(ps)[q].r == Luma(ps[q].r, ps[q].g, ps[q].b)
  {
  }

  /** Converting an image that is already grey changes nothing. */
  lemma GrayscaleOfGray(ps: seq<Rgba>)
    requires IsGray(ps)
    ensures Grayscale(ps) == ps
  {
    forall q | 0 <= q < |ps|
      ensures Grayscale(ps)[q] == ps[q]
    {
      LumaOfGray(ps[q].r);
    }
  }

  /** The weights sum to one, so a grey pixel's luma is its own value. */
  lemma LumaOfGray(v: Byte)
    ensures Luma(v, v, v) == v
  {
    Mul.DivModUnique(1000 * v + 500, 1000, v, 500);
  }

  // ---------------------------------------------------------------------
  // Contrast normalisation
  // ---------------------------------------------------------------------

  /** The `min` accumulator of `normalizeContrast` after scanning `ps`: starts at 255. */
  function RedMin(ps: seq<Rgba>): Byte
    decreases |ps|
  {
    if |ps| == 0 then 255
    else
      var m := RedMin(ps[..|ps| - 1]);
      if ps[|ps| - 1].r < m then ps[|ps| - 1].r else m
  }

  /** The `max` accumulator of `normalizeContrast` after scanning `ps`: starts at 0. */
  function RedMax(ps: seq<Rgba>): Byte
    decreases |ps|
  {
    if |ps| == 0 then 0
    else
      var m := RedMax(ps[..|ps| - 1]);
      if ps[|ps| - 1].r > m then ps[|ps| - 1].r else m
  }

  /** The red channel lies between the two accumulators. */
  lemma {:induction false} RedBounds(ps: seq<Rgba>)
    ensures forall q :: 0 <= q < |ps| ==> RedMin(ps) <= ps[q].r <= RedMax(ps)
  {
    if |ps| > 0 {
      var init := ps[..|ps| - 1];
      RedBounds(init);
      assert forall q :: 0 <= q < |init| ==> init[q] == ps[q];
    }
  }

  /** On a non-empty buffer both accumulators are red values of some pixel. */
  lemma {:induction false} RedAttained(ps: seq<Rgba>)
    requires |ps| > 0
    ensures exists q :: 0 <= q < |ps| && ps[q].r == RedMin(ps)
    ensures exists q :: 0 <= q < |ps| && ps[q].r == RedMax(ps)
  {
    var init := ps[..|ps| - 1];
    var last := |ps| - 1;
    if |init| == 0 {
      assert ps[last].r == RedMin(ps) == RedMax(ps);
    } else {
      RedAttained(init);
      var i :| 0 <= i < |init| && init[i].r == RedMin(init);
      var j :| 0 <= j < |init| && init[j].r == RedMax(init);
      assert init[i] == ps[i] && init[j] == ps[j];
      if ps[last].r < RedMin(init) {
        assert ps[last].r == RedMin(ps);
      } else {
        assert ps[i].r == RedMin(ps);
      }
      if ps[last].r > RedMax(init) {
        assert ps[last].r == RedMax(ps);
      } else {
        assert ps[j].r == RedMax(ps);
      }
    }
  }

  /** A red value at most every other red value is the minimum the scan finds. */
  lemma RedMinIs(ps: seq<Rgba>, q: nat)
    requires q < |ps|
    requires forall k :: 0 <= k < |ps| ==> ps[q].r <= ps[k].r
    ensures RedMin(ps) == ps[q].r
  {
    RedBounds(ps);
    RedAttained(ps);
  }

  /** A red value at least every other red value is the maximum the scan finds. */
  lemma RedMaxIs(ps: seq<Rgba>, q: nat)
    requires q < |ps|
    requires forall k :: 0 <= k < |ps| ==> ps[k].r <= ps[q].r
    ensures RedMax(ps) == ps[q].r
  {
    RedBounds(ps);
    RedAttained(ps);
  }

  /**
   * `Math.round((v - lo) * 255 / range)` in integers.  The quotient is a
   * multiple of `1 / range`, so its halves are exact in floating point too.
   * The bottom of the range stretches to 0 and the top to 255.
   */
  function Stretch(v: Byte, lo: Byte, range: nat): (t: Byte)
    requires 0 < range && lo <= v <= lo + range
    ensures v == lo ==> t == 0
    ensures v == lo + range ==> t == 255
  {
    StretchBound(v - lo, range);
    Mul.DivModUnique(range, 2 * range, 0, range);
    Mul.DivModUnique(2 * range * 255 + range, 2 * range, 255, range);
    (2 * (v - lo) * 255 + range) / (2 * range)
  }

  /** The rounded quotient of a stretch stays within a byte. */
  lemma StretchBound(d: nat, range: nat)
    requires 0 < range && d <= range
    ensures 0 <= (2 * d * 255 + range) / (2 * range) <= 255
  {
    var n := 2 * d * 255 + range;
    var q := n / (2 * range);
    if q > 255 {
      Mul.MulLeq(256, q, 2 * range);
    }
  }

  /**
   * `Stretch` is the integer nearest to `(v - lo) * 255 / range`, halves
   * rounded up, as `Math.round` gives it.
   */
  lemma StretchRounds(v: Byte, lo: Byte, range: nat)
    requires 0 < range && lo <= v <= lo + range
    ensures var t := Stretch(v, lo, range);
      2 * range * t - range <= 2 * (v - lo) * 255 < 2 * range * t + range
  {
    var n := 2 * (v - lo) * 255 + range;
    assert n == (n / (2 * range)) * (2 * range) + n % (2 * range);
  }

  /** On the full range 0..255 stretching changes nothing. */
  lemma StretchFull(v: Byte)
    ensures Stretch(v, 0, 255) == v
  {
    Mul.DivModUnique(2 * v * 255 + 255, 2 * 255, v, 255);
  }

  /** One pixel of the stretch: its red value stretched into R, G and B, alpha copied. */
  function StretchPixel(p: Rgba, lo: Byte, range: nat): (s: Rgba)
    requires 0 < range && lo <= p.r <= lo + range
    ensures s.r == s.g == s.b && s.a == p.a
  {
    var v := Stretch(p.r, lo, range);
    Rgba(v, v, v, p.a)
  }

  /**
   * What `normalizeContrast` returns: the pixels unchanged when the red
   * channel is uniform, otherwise every pixel stretched between the red
   * minimum and maximum.
   */
  function Normalized(ps: seq<Rgba>): (qs: seq<Rgba>)
    ensures |qs| == |ps|
  {
    var lo, hi := RedMin(ps), RedMax(ps);
    var range := hi as int - lo as int;
    if range == 0 then ps
    else
      RedBounds(ps);
      seq(|ps|, q requires 0 <= q < |ps| => StretchPixel(ps[q], lo, range))
  }

  /** A buffer whose red channel is uniform comes back unchanged. */
  lemma NormalizedUniform(ps: seq<Rgba>)
    requires |ps| > 0
    requires forall q :: 0 <= q < |ps| ==> ps[q].r == ps[0].r
    ensures Normalized(ps) == ps
  {
    RedMinIs(ps, 0);
    RedMaxIs(ps, 0);
  }

  /**
   * When the red channel is not uniform the result is grey, keeps alpha,
   * holds the stretched red value of every pixel, and sends the darkest red
   * to 0 and the brightest to 255.
   */
  lemma NormalizedStretches(ps: seq<Rgba>)
    requires |ps| > 0 && RedMin(ps) != RedMax(ps)
    ensures RedMin(ps) < RedMax(ps)
    ensures IsGray(Normalized(ps)) && SameAlpha(ps, Normalized(ps))
    ensures (RedBounds(ps);
      forall q :: 0 <= q < |ps| ==>
        Normalized(ps)[q].r == Stretch(ps[q].r, RedMin(ps), RedMax(ps) - RedMin(ps)))
    ensures forall q :: 0 <= q < |ps| && ps[q].r == RedMin(ps) ==> Normalized(ps)[q].r == 0
    ensures forall q :: 0 <= q < |ps| && ps[q].r == RedMax(ps) ==> Normalized(ps)[q].r == 255
  {
    RedBounds(ps);
    var lo, hi := RedMin(ps), RedMax(ps);
    assert lo <= ps[0].r <= hi;
    var range := hi as int - lo as int;
    assert 0 < range;
    forall q | 0 <= q < |ps|
      ensures Normalized(ps)[q] == StretchPixel(ps[q], lo, range)
      ensures Normalized(ps)[q].r == Stretch(ps[q].r, lo, range)
    {
    }
  }

  /** A grey buffer whose red channel already spans 0..255 is left as it is. */
  lemma NormalizedFullRange(ps: seq<Rgba>)
    requires IsGray(ps) && RedMin(ps) == 0 && RedMax(ps) == 255
    ensures Normalized(ps) == ps
  {
    RedBounds(ps);
    var lo, hi := RedMin(ps), RedMax(ps);
    assert hi as int - lo as int == 255;
    forall q | 0 <= q < |ps|
      ensures Normalized(ps)[q] == ps[q]
    {
      StretchFull(ps[q].r);
      assert Normalized(ps)[q] == StretchPixel(ps[q], 0, 255);
    }
  }

  /** Normalising an already normalised buffer changes nothing. */
  lemma NormalizedIdempotent(ps: seq<Rgba>)
    ensures Normalized(Normalized(ps)) == Normalized(ps)
  {
    if |ps| > 0 && RedMin(ps) != RedMax(ps) {
      NormalizedStretches(ps);
      var qs := Normalized(ps);
      RedAttained(ps);
      var i :| 0 <= i < |ps| && ps[i].r == RedMin(ps);
      var j :| 0 <= j < |ps| && ps[j].r == RedMax(ps);
      RedMinIs(qs, i);
      RedMaxIs(qs, j);
      NormalizedFullRange(qs);
    }
  }

  /** Normalising a grey buffer gives a grey buffer. */
  lemma NormalizedKeepsGray(ps: seq<Rgba>)
    requires IsGray(ps)
    ensures IsGray(Normalized(ps))
  {
    if |ps| > 0 && RedMin(ps) != RedMax(ps) {
      NormalizedStretches(ps);
    }
  }

  // ---------------------------------------------------------------------
  // Inversion
  // ---------------------------------------------------------------------

  /** One pixel of `invertImage`: R, G, B replaced by `255 - v`, alpha copied. */
  function InvertPixel(p: Rgba): (s: Rgba)
    ensures s.r + p.r == 255 && s.g + p.g == 255 && s.b + p.b == 255 && s.a == p.a
  {
    Rgba(255 - p.r, 255 - p.g, 255 - p.b, p.a)
  }

  /** What `invertImage` returns. */
  function Inverted(ps: seq<Rgba>): (qs: seq<Rgba>)
    ensures |qs| == |ps|
  {
    seq(|ps|, q requires 0 <= q < |ps| => InvertPixel(ps[q]))
  }

  /** Inversion keeps alpha and complements every colour channel. */
  lemma InvertedComplements(ps: seq<Rgba>)
    ensures SameAlpha(ps, Inverted(ps))
    ensures forall q :: 0 <= q < |ps| ==>
      Inverted(ps)[q].r + ps[q].r == 255 && Inverted(ps)[q].g + ps[q].g == 255 && Inverted(ps)[q].b + ps[q].b == 255
  {
  }

  /** Inverting twice gives back the original pixels. */
  lemma InvertedInvolution(ps: seq<Rgba>)
    ensures Inverted(Inverted(ps)) == ps
  {
    assert forall q :: 0 <= q < |ps| ==> Inverted(Inverted(ps))[q] == ps[q];
  }

  /**
   * Inverting a buffer and then inverting the result gives back the very
   * same bytes, not only the same pixels.
   */
  lemma InvertedTwiceSameBytes(s: seq<Byte>, t: seq<Byte>, u: seq<Byte>)
    requires |s| % 4 == 0 && |t| % 4 == 0 && |u| % 4 == 0
    requires Pixels(t) == Inverted(Pixels(s)) && Pixels(u) == Inverted(Pixels(t))
    ensures u == s
  {
    InvertedInvolution(Pixels(s));
    PixelsInjective(u, s);
  }

  // ---------------------------------------------------------------------
  // Rotation
  // ---------------------------------------------------------------------

  /** Width of the image `rotateImage` returns. */
  function RotatedWidth(w: nat, h: nat, d: Orientation): nat {
    if d == 90 || d == 270 then h else w
  }

  /** Height of the image `rotateImage` returns. */
  function RotatedHeight(w: nat, h: nat, d: Orientation): nat {
    if d == 90 || d == 270 then w else h
  }

  /**
   * The index at which `rotateImage` stores source pixel (x, y) of a `w` by
   * `h` image: the `dstIdx` of its loops, and (x, y) itself for 0 degrees.
   */
  function TargetPixel(w: nat, h: nat, d: Orientation, x: nat, y: nat): (q: nat)
    requires x < w && y < h
    ensures q < w * h
  {
    if d == 0 then
      Mul.RowMajorBound(w, h, x, y);
      y * w + x
    else if d == 180 then
      Mul.RowMajorBound(w, h, w - 1 - x, h - 1 - y);
      (h - 1 - y) * w + (w - 1 - x)
    else if d == 90 then
      Mul.RowMajorBound(h, w, h - 1 - y, x);
      x * h + (h - 1 - y)
    else
      Mul.RowMajorBound(h, w, y, w - 1 - x);
      (w - 1 - x) * h + y
  }

  /** The source pixel that `rotateImage` stores at index `q`. */
  function SourcePixel(w: nat, h: nat, d: Orientation, q: nat): (p: nat)
    requires q < w * h
    ensures p < w * h
  {
    if d == 0 then q
    else if d == 180 then w * h - 1 - q
    else
      Mul.DivModBounds(q, h, w);
      if d == 90 then
        Mul.RowMajorBound(w, h, q / h, h - 1 - q % h);
        (h - 1 - q % h) * w + q / h
      else
        Mul.RowMajorBound(w, h, w - 1 - q / h, q % h);
        (q % h) * w + (w - 1 - q / h)
  }

  /** `SourcePixel` undoes `TargetPixel`: no two source pixels land on one index. */
  lemma TargetSourceInverse(w: nat, h: nat, d: Orientation, x: nat, y: nat)
    requires x < w && y < h
    ensures SourcePixel(w, h, d, TargetPixel(w, h, d, x, y)) == y * w + x
  {
    var q := TargetPixel(w, h, d, x, y);
    if d == 90 {
      Mul.DivModUnique(q, h, x, h - 1 - y);
    } else if d == 270 {
      Mul.DivModUnique(q, h, w - 1 - x, y);
    } else if d == 180 {
      Mul.Distribute(h - 1 - y, w, y);
    }
  }

  /** `TargetPixel` undoes `SourcePixel`: every index receives some source pixel. */
  lemma SourceTargetInverse(w: nat, h: nat, d: Orientation, q: nat)
    requires q < w * h
    ensures var p := SourcePixel(w, h, d, q);
      p % w < w && p / w < h && TargetPixel(w, h, d, p % w, p / w) == q
  {
    var p := SourcePixel(w, h, d, q);
    Mul.DivModBounds(p, w, h);
    if d == 0 {
      assert p == (p / w) * w + p % w;
    } else if d == 90 {
      SourceTarget90(w, h, q);
    } else if d == 270 {
      SourceTarget270(w, h, q);
    } else {
      SourceTarget180(w, h, q);
    }
  }

  /** For a quarter turn clockwise, the source of destination `q` is a pixel whose target is `q`. */
  lemma SourceTarget90(w: nat, h: nat, q: nat)
    requires q < w * h
    ensures var p := SourcePixel(w, h, 90, q);
      p % w < w && p / w < h && TargetPixel(w, h, 90, p % w, p / w) == q
  {
    var p := SourcePixel(w, h, 90, q);
    Mul.DivModBounds(q, h, w);
    Mul.DivModUnique(p, w, h - 1 - q % h, q / h);
  }

  /** For a quarter turn anticlockwise, the source of destination `q` is a pixel whose target is `q`. */
  lemma SourceTarget270(w: nat, h: nat, q: nat)
    requires q < w * h
    ensures var p := SourcePixel(w, h, 270, q);
      p % w < w && p / w < h && TargetPixel(w, h, 270, p % w, p / w) == q
  {
    var p := SourcePixel(w, h, 270, q);
    Mul.DivModBounds(q, h, w);
    Mul.DivModUnique(p, w, q % h, w - 1 - q / h);
  }

  /** For a half turn, the source of destination `q` is a pixel whose target is `q`. */
  lemma SourceTarget180(w: nat, h: nat, q: nat)
    requires q < w * h
    ensures var p := SourcePixel(w, h, 180, q);
      p % w < w && p / w < h && TargetPixel(w, h, 180, p % w, p / w) == q
  {
    var p := SourcePixel(w, h, 180, q);
    Mul.DivModBounds(p, w, h);
    Mul.Distribute(h - 1 - p / w, w, p / w);
  }

  /** Only one destination pixel takes its value from source pixel (x, y). */
  lemma TargetOfSource(w: nat, h: nat, d: Orientation, x: nat, y: nat, q: nat)
    requires x < w && y < h && q < w * h
    requires SourcePixel(w, h, d, q) == y * w + x
    ensures q == TargetPixel(w, h, d, x, y)
  {
    SourceTargetInverse(w, h, d, q);
    Mul.DivModUnique(y * w + x, w, y, x);
  }

  /**
   * What `rotateImage` returns for the pixels of a `w` by `h` image: index
   * `q` holds source pixel `SourcePixel(q)`, all four channels moved together.
   */
  function Rotated(ps: seq<Rgba>, w: nat, h: nat, d: Orientation): (qs: seq<Rgba>)
    requires |ps| == w * h
    ensures |qs| == |ps|
  {
    seq(|ps|, q requires 0 <= q < |ps| => ps[SourcePixel(w, h, d, q)])
  }

  /** `rotateImage` on a whole image value, dimensions included. */
  function Rotate(img: Image, d: Orientation): (r: Image)
    requires img.Valid()
    ensures r.Valid() && |r.pixels| == |img.pixels|
    ensures r.width == RotatedWidth(img.width, img.height, d)
    ensures r.height == RotatedHeight(img.width, img.height, d)
  {
    Image(RotatedWidth(img.width, img.height, d), RotatedHeight(img.width, img.height, d),
          Rotated(img.pixels, img.width, img.height, d))
  }

  /** Source pixel (x, y) appears unchanged at index `TargetPixel(x, y)` of the result. */
  lemma RotatedMovesPixel(ps: seq<Rgba>, w: nat, h: nat, d: Orientation, x: nat, y: nat)
    requires |ps| == w * h && x < w && y < h
    ensures (Mul.RowMajorBound(w, h, x, y);
      Rotated(ps, w, h, d)[TargetPixel(w, h, d, x, y)] == ps[y * w + x])
  {
    TargetSourceInverse(w, h, d, x, y);
  }

  /** Rotating by 0 degrees gives back the same image. */
  lemma RotateZero(img: Image)
    requires img.Valid()
    ensures Rotate(img, 0) == img
  {
  }

  /** Two rotations whose source maps compose to the identity undo each other. */
  lemma RotateTwice(img: Image, d1: Orientation, d2: Orientation)
    requires img.Valid()
    requires var w1, h1 := RotatedWidth(img.width, img.height, d1), RotatedHeight(img.width, img.height, d1);
      && RotatedWidth(w1, h1, d2) == img.width && RotatedHeight(w1, h1, d2) == img.height
      && forall q :: 0 <= q < img.width * img.height ==>
           SourcePixel(img.width, img.height, d1, SourcePixel(w1, h1, d2, q)) == q
    ensures Rotate(Rotate(img, d1), d2) == img
  {
    var c := Rotate(img, d1);
    var r := Rotate(c, d2);
    forall q | 0 <= q < |r.pixels|
      ensures r.pixels[q] == img.pixels[q]
    {
      var m := SourcePixel(c.width, c.height, d2, q);
      assert r.pixels[q] == c.pixels[m];
    }
  }

  /** Rotating by 180 degrees twice is the identity. */
  lemma Rotate180Twice(img: Image)
    requires img.Valid()
    ensures Rotate(Rotate(img, 180), 180) == img
  {
    RotateTwice(img, 180, 180);
  }

  /** Rotating by 90 then by 270 degrees is the identity. */
  lemma Rotate90Then270(img: Image)
    requires img.Valid()
    ensures Rotate(Rotate(img, 90), 270) == img
  {
    var w, h := img.width, img.height;
    forall q | 0 <= q < w * h
      ensures SourcePixel(w, h, 90, SourcePixel(h, w, 270, q)) == q
    {
      Source90After270(w, h, q);
    }
    RotateTwice(img, 90, 270);
  }

  /** Index form of `Rotate90Then270`: the two source maps undo each other. */
  lemma Source90After270(w: nat, h: nat, q: nat)
    requires q < w * h
    ensures SourcePixel(w, h, 90, SourcePixel(h, w, 270, q)) == q
  {
    Mul.DivModBounds(q, w, h);
    var a, b := q / w, q % w;
    assert q == a * w + b;
    var m := b * h + (h - 1 - a);
    assert SourcePixel(h, w, 270, q) == m;
    Mul.DivModUnique(m, h, b, h - 1 - a);
    assert SourcePixel(w, h, 90, m) == a * w + b;
  }

  /** Rotating by 270 then by 90 degrees is the identity. */
  lemma Rotate270Then90(img: Image)
    requires img.Valid()
    ensures Rotate(Rotate(img, 270), 90) == img
  {
    var w, h := img.width, img.height;
    forall q | 0 <= q < w * h
      ensures SourcePixel(w, h, 270, SourcePixel(h, w, 90, q)) == q
    {
      Source270After90(w, h, q);
    }
    RotateTwice(img, 270, 90);
  }

  /** Index form of `Rotate270Then90`: the two source maps undo each other. */
  lemma Source270After90(w: nat, h: nat, q: nat)
    requires q < w * h
    ensures SourcePixel(w, h, 270, SourcePixel(h, w, 90, q)) == q
  {
    Mul.DivModBounds(q, w, h);
    var a, b := q / w, q % w;
    assert q == a * w + b;
    var m := (w - 1 - b) * h + a;
    assert SourcePixel(h, w, 90, q) == m;
    Mul.DivModUnique(m, h, w - 1 - b, a);
    assert SourcePixel(w, h, 270, m) == a * w + b;
  }
}
