/**
 * The image processor: each transform reads an `ImageData`, allocates a
 * fresh byte buffer, fills it in a loop over the interleaved RGBA bytes and
 * wraps it in a new `ImageData`.  Every method is proved to produce exactly
 * the pixels the matching function of `PixelSpec` describes.
 */
module ImageProcessor {

  import opened PixelSpec
  import Mul

  /** A browser `ImageData`: fixed dimensions over a `Uint8ClampedArray`. */
  class ImageData {
    const width: nat
    const height: nat
    const data: array<Byte>

    /** What the `ImageData` constructor checks: positive dimensions, four bytes per pixel. */
    ghost predicate Valid() {
      width > 0 && height > 0 && data.Length == width * height * 4
    }

    /** The image the buffer holds. */
    function View(): (img: Image)
      requires Valid()
      reads data
      ensures img.Valid() && img.width == width && img.height == height
      ensures data.Length == 4 * |img.pixels|
    {
      Mul.QuadLength(width * height);
      Image(width, height, Pixels(data[..]))
    }

    /** `new ImageData(data, width, height)`. */
    constructor (data: array<Byte>, width: nat, height: nat)
      requires width > 0 && height > 0 && data.Length == width * height * 4
      ensures this.data == data && this.width == width && this.height == height
      ensures Valid()
    {
      this.data := data;
      this.width := width;
      this.height := height;
    }
  }

  /** `toGrayscale`: every pixel replaced by its luma in R, G and B, alpha copied. */
  method ToGrayscale(img: ImageData) returns (out: ImageData)
    requires img.Valid()
    ensures out.Valid() && fresh(out) && fresh(out.data)
    ensures out.View() == Image(img.width, img.height, Grayscale(img.View().pixels))
  {
    var src := img.data;
    ghost var ps := img.View().pixels;
    var dst := new Byte[src.Length];
    var i := 0;
    ghost var p := 0;
    while i < src.Length
      invariant 0 <= i <= src.Length && i == 4 * p
      invariant forall q :: 0 <= q < p ==> Px(dst[..], q) == GrayPixel(ps[q])
    {
      ghost var before := dst[..];
      assert Px(src[..], p) == ps[p];
      var gray := Luma(src[i], src[i + 1], src[i + 2]);
      dst[i] := gray;
      dst[i + 1] := gray;
      dst[i + 2] := gray;
      dst[i + 3] := src[i + 3];
      assert Px(dst[..], p) == GrayPixel(ps[p]);
      PixelWritten(before, dst[..], p);
      i, p := i + 4, p + 1;
    }
    PixelsFrom(dst[..], Grayscale(ps));
    out := new ImageData(dst, img.width, img.height);
  }

  /**
   * `normalizeContrast`: scan the red channel for its minimum and maximum;
   * a uniform image is copied byte for byte, any other one stretched.
   */
  method NormalizeContrast(img: ImageData) returns (out: ImageData)
    requires img.Valid()
    ensures out.Valid() && fresh(out) && fresh(out.data)
    ensures out.View() == Image(img.width, img.height, Normalized(img.View().pixels))
    ensures RedMin(img.View().pixels) == RedMax(img.View().pixels) ==> out.data[..] == img.data[..]
  {
    var src := img.data;
    ghost var ps := img.View().pixels;

    var min, max := RedRange(src, ps);
    RedBounds(ps);

    var range := max as int - min as int;
    if range == 0 {
      var copy := new Byte[src.Length](k requires 0 <= k < src.Length reads src => src[k]);
      assert copy[..] == src[..];
      out := new ImageData(copy, img.width, img.height);
      return;
    }

    var dst := StretchChannels(src, ps, min, range);
    PixelsFrom(dst[..], Normalized(ps));
    out := new ImageData(dst, img.width, img.height);
  }

  /** The scan of `normalizeContrast` for the smallest and largest red value. */
  method RedRange(src: array<Byte>, ghost ps: seq<Rgba>) returns (min: Byte, max: Byte)
    requires src.Length == 4 * |ps|
    requires forall q :: 0 <= q < |ps| ==> Px(src[..], q) == ps[q]
    ensures min == RedMin(ps) && max == RedMax(ps)
  {
    min, max := 255, 0;
    var i := 0;
    ghost var p := 0;
    while i < src.Length
      invariant 0 <= i <= src.Length && i == 4 * p
      invariant min == RedMin(ps[..p]) && max == RedMax(ps[..p])
    {
      var value := src[i];
      assert value == ps[p].r && ps[..p + 1][..p] == ps[..p];
      if value < min {
        min := value;
      }
      if value > max {
        max := value;
      }
      i, p := i + 4, p + 1;
    }
    assert ps[..p] == ps;
  }

  /**
   * The remapping loop of `normalizeContrast`: every red value `v` becomes
   * `round((v - min) * 255 / range)` in R, G and B, alpha copied.
   */
  method StretchChannels(src: array<Byte>, ghost ps: seq<Rgba>, min: Byte, range: nat) returns (dst: array<Byte>)
    requires src.Length == 4 * |ps|
    requires forall q :: 0 <= q < |ps| ==> Px(src[..], q) == ps[q]
    requires 0 < range && forall q :: 0 <= q < |ps| ==> min <= ps[q].r <= min + range
    ensures fresh(dst) && dst.Length == src.Length
    ensures forall q :: 0 <= q < |ps| ==> Px(dst[..], q) == StretchPixel(ps[q], min, range)
  {
    dst := new Byte[src.Length];
    var i := 0;
    ghost var p := 0;
    while i < src.Length
      invariant 0 <= i <= src.Length && i == 4 * p
      invariant forall q :: 0 <= q < p ==> Px(dst[..], q) == StretchPixel(ps[q], min, range)
    {
      ghost var before := dst[..];
      assert src[i] == ps[p].r;
      var value := Stretch(src[i], min, range);
      dst[i] := value;
      dst[i + 1] := value;
      dst[i + 2] := value;
      dst[i + 3] := src[i + 3];
      PixelWritten(before, dst[..], p);
      i, p := i + 4, p + 1;
    }
  }

  /** `invertImage`: R, G and B replaced by `255 - v`, alpha copied. */
  method InvertImage(img: ImageData) returns (out: ImageData)
    requires img.Valid()
    ensures out.Valid() && fresh(out) && fresh(out.data)
    ensures out.View() == Image(img.width, img.height, Inverted(img.View().pixels))
  {
    var src := img.data;
    ghost var ps := img.View().pixels;
    var dst := new Byte[src.Length];
    var i := 0;
    ghost var p := 0;
    while i < src.Length
      invariant 0 <= i <= src.Length && i == 4 * p
      invariant forall q :: 0 <= q < p ==> Px(dst[..], q) == InvertPixel(ps[q])
    {
      ghost var before := dst[..];
      dst[i] := 255 - src[i];
      dst[i + 1] := 255 - src[i + 1];
      dst[i + 2] := 255 - src[i + 2];
      dst[i + 3] := src[i + 3];
      PixelWritten(before, dst[..], p);
      i, p := i + 4, p + 1;
    }
    PixelsFrom(dst[..], Inverted(ps));
    out := new ImageData(dst, img.width, img.height);
  }

  /** `cloneImageData`: the same dimensions over a fresh copy of the bytes. */
  method CloneImageData(img: ImageData) returns (out: ImageData)
    requires img.Valid()
    ensures out.Valid() && fresh(out) && fresh(out.data)
    ensures out.width == img.width && out.height == img.height && out.data[..] == img.data[..]
  {
    var src := img.data;
    var copy := new Byte[src.Length](k requires 0 <= k < src.Length reads src => src[k]);
    out := new ImageData(copy, img.width, img.height);
  }

  /** `copyPixel`: the four bytes of pixel `srcIndex` written over pixel `dstIndex`. */
  method CopyPixel(src: array<Byte>, srcIndex: nat, dst: array<Byte>, dstIndex: nat)
    requires 4 * srcIndex + 4 <= src.Length && 4 * dstIndex + 4 <= dst.Length
    modifies dst
    ensures Px(dst[..], dstIndex) == old(Px(src[..], srcIndex))
    ensures forall k :: 0 <= k < dst.Length && (k < 4 * dstIndex || 4 * dstIndex + 4 <= k) ==> dst[k] == old(dst[k])
  {
    var si := srcIndex * 4;
    var di := dstIndex * 4;
    dst[di] := src[si];
    dst[di + 1] := src[si + 1];
    dst[di + 2] := src[si + 2];
    dst[di + 3] := src[si + 3];
  }

  /**
   * `rotateImage`: 0 degrees clones; otherwise every source pixel is copied
   * whole to its rotated place in a buffer with the rotated dimensions.
   */
  method RotateImage(img: ImageData, degrees: Orientation) returns (out: ImageData)
    requires img.Valid()
    ensures out.Valid() && fresh(out) && fresh(out.data)
    ensures out.View() == Rotate(img.View(), degrees)
    ensures degrees == 0 ==> out.data[..] == img.data[..]
  {
    if degrees == 0 {
      out := CloneImageData(img);
      RotateZero(img.View());
      return;
    }
    var width, height, src := img.width, img.height, img.data;
    ghost var ps := img.View().pixels;
    var dstWidth, dstHeight := RotatedWidth(width, height, degrees), RotatedHeight(width, height, degrees);
    var dst := new Byte[dstWidth * dstHeight * 4];
    assert dstWidth * dstHeight == width * height;
    MovePixels(src, ps, dst, width, height, degrees);
    PixelsFrom(dst[..], Rotated(ps, width, height, degrees));
    out := new ImageData(dst, dstWidth, dstHeight);
  }

  /**
   * The copy loops of `rotateImage`, filling the buffer of the new
   * `ImageData`: source pixel (x, y), visited row by row, goes to `TargetPixel(x, y)`.  Since that placement is a bijection,
   * afterwards every destination pixel `q` holds source pixel `SourcePixel(q)`.
   */
  method MovePixels(src: array<Byte>, ghost ps: seq<Rgba>, dst: array<Byte>,
                    width: nat, height: nat, degrees: Orientation)
    requires width > 0 && height > 0 && |ps| == width * height && src.Length == 4 * |ps|
    requires forall q :: 0 <= q < |ps| ==> Px(src[..], q) == ps[q]
    requires dst != src && dst.Length == src.Length
    modifies dst
    ensures forall q :: 0 <= q < |ps| ==> Px(dst[..], q) == ps[SourcePixel(width, height, degrees, q)]
  {
    ghost var n := |ps|;
    ghost var done := 0;
    var y := 0;
    while y < height
      invariant 0 <= y <= height && done == y * width
      invariant forall q :: 0 <= q < n && SourcePixel(width, height, degrees, q) < done ==>
        Px(dst[..], q) == ps[SourcePixel(width, height, degrees, q)]
    {
      var x := 0;
      while x < width
        invariant 0 <= x <= width && done == y * width + x
        invariant forall q :: 0 <= q < n && SourcePixel(width, height, degrees, q) < done ==>
          Px(dst[..], q) == ps[SourcePixel(width, height, degrees, q)]
      {
        Mul.RowMajorBound(width, height, x, y);
        var srcIdx := y * width + x;
        assert srcIdx == done;
        var dstIdx := TargetPixel(width, height, degrees, x, y);
        ghost var before := dst[..];
        assert Px(src[..], srcIdx) == ps[srcIdx];
        CopyPixel(src, srcIdx, dst, dstIdx);
        PlacedOne(width, height, degrees, x, y, done, dstIdx, ps, before, dst[..]);
        x, done := x + 1, done + 1;
      }
      Mul.Distribute(y, width, 1);
      y := y + 1;
    }
    assert height * width == n;
  }

  /**
   * One step of the copy loops: once source pixel `done`, that is (x, y), has
   * been written to `TargetPixel(x, y)`, every destination pixel whose
   * source comes before `done + 1` holds it.
   */
  lemma PlacedOne(width: nat, height: nat, degrees: Orientation, x: nat, y: nat, done: nat, target: nat,
                  ps: seq<Rgba>, before: seq<Byte>, after: seq<Byte>)
    requires x < width && y < height && |ps| == width * height
    requires done == y * width + x && done < |ps| && target == TargetPixel(width, height, degrees, x, y)
    requires |before| == |after| == 4 * |ps|
    requires forall q :: 0 <= q < |ps| && SourcePixel(width, height, degrees, q) < done ==>
      Px(before, q) == ps[SourcePixel(width, height, degrees, q)]
    requires Px(after, target) == ps[done]
    requires forall k :: 0 <= k < |after| && (k < 4 * target || 4 * target + 4 <= k) ==> after[k] == before[k]
    ensures forall q :: 0 <= q < |ps| && SourcePixel(width, height, degrees, q) < done + 1 ==>
      Px(after, q) == ps[SourcePixel(width, height, degrees, q)]
  {
    PixelWritten(before, after, target);
    TargetSourceInverse(width, height, degrees, x, y);
    forall q | 0 <= q < |ps| && SourcePixel(width, height, degrees, q) < done + 1
      ensures Px(after, q) == ps[SourcePixel(width, height, degrees, q)]
    {
      if SourcePixel(width, height, degrees, q) == done {
        TargetOfSource(width, height, degrees, x, y, q);
      }
    }
  }
}
