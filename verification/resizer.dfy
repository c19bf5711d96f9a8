/** The shape arithmetic of the aspect-preserving resizer.

    The resizer scales an image so that its longer side becomes the target
    size, rounds the proportional shorter side up to a whole pixel, and then
    pads the bottom or right edge so that the shorter side of the canvas is
    a multiple of the model's stride. The pixel work (interpolation and the
    constant border fill) belongs to the image library; this module models
    the sizes it is asked to produce.
 */
module Resizer {

  /** The stride the model needs the canvas padded to. */
  const STRIDE: nat := 32

  /** Ceiling division: the least `q` with `q * b >= a`. */
  function CeilDiv(a: nat, b: nat): (q: nat)
    requires b > 0
    ensures a <= q * b < a + b
  {
    var q := (a + b - 1) / b;
    assert q * b + (a + b - 1) % b == a + b - 1;
    q
  }

  /** The shorter side's length rounded up to a whole multiple of the stride. */
  function RoundUpToStride(n: nat): (m: nat)
    ensures m % STRIDE == 0
    ensures n <= m < n + STRIDE
  {
    CeilDiv(n, STRIDE) * STRIDE
  }

  /** No smaller multiple of the stride covers `n`: together with the
      contract of `RoundUpToStride` this pins the result down. */
  lemma RoundUpIsLeast(n: nat, m: nat)
    requires m % STRIDE == 0 && n <= m
    ensures RoundUpToStride(n) <= m
  {
    var r := RoundUpToStride(n);
    assert m == (m / STRIDE) * STRIDE;
    assert r == (r / STRIDE) * STRIDE;
    assert r / STRIDE <= m / STRIDE;
  }

  /** Scaling the shorter side `short` of an image whose longer side is
      `long` by `targetSize / long`, then taking the ceiling, gives a
      positive length no larger than `targetSize`. */
  lemma {:induction false} ScaledSideBounds(short: nat, long: nat, targetSize: nat)
    requires 0 < short <= long && targetSize > 0
    ensures 0 < CeilDiv(short * targetSize, long) <= targetSize
  {
    var q := CeilDiv(short * targetSize, long);
    assert short * targetSize <= long * targetSize by {
      MulMonotone(short, long, targetSize);
    }
    if q > targetSize {
      MulMonotone(targetSize, q - 1, long);
      assert false;
    }
    assert q > 0 by {
      assert short * targetSize > 0 by {
        MulPositive(short, targetSize);
      }
    }
  }

  lemma MulMonotone(a: nat, b: nat, c: nat)
    requires a <= b
    ensures a * c <= b * c
  {
  }

  lemma MulPositive(a: nat, b: nat)
    requires a > 0 && b > 0
    ensures a * b > 0
  {
  }

  /** Border sizes, in pixels, added on each edge of the resized image. */
  datatype Padding = Padding(top: int, bottom: int, left: int, right: int)

  /** The outcome of the resizer: the size the image is resized to before
      padding, the size of the padded canvas (the pair the resizer returns),
      and the border added to get from one to the other. */
  datatype Resized = Resized(
    resizedHeight: nat,
    resizedWidth: nat,
    targetHeight: nat,
    targetWidth: nat,
    padding: Padding)

  /** The resizer's shape computation for an image of `height` by `width`.

      The longer side becomes exactly `targetSize`; a square image counts as
      wide. The other side is the least whole length that keeps the aspect
      ratio, and the canvas rounds only that side up to the stride. The
      border goes on the bottom and right only and exactly fills the canvas. */
  function KeepAspectRatio(height: nat, width: nat, targetSize: nat): (r: Resized)
    requires height > 0 && width > 0 && targetSize > 0
    // the longer side is the target size, never rounded
    ensures height > width ==> r.resizedHeight == targetSize && r.targetHeight == targetSize
    ensures height <= width ==> r.resizedWidth == targetSize && r.targetWidth == targetSize
    // the shorter side keeps the aspect ratio, rounded up to a whole pixel
    ensures height > width ==>
      width * targetSize <= r.resizedWidth * height < width * targetSize + height
    ensures height <= width ==>
      height * targetSize <= r.resizedHeight * width < height * targetSize + width
    ensures 0 < r.resizedHeight <= targetSize && 0 < r.resizedWidth <= targetSize
    // the shorter side of the canvas is the least stride multiple covering it
    ensures height > width ==>
      r.targetWidth % STRIDE == 0 && r.resizedWidth <= r.targetWidth < r.resizedWidth + STRIDE
    ensures height <= width ==>
      r.targetHeight % STRIDE == 0 && r.resizedHeight <= r.targetHeight < r.resizedHeight + STRIDE
    // the border sits on the bottom and right only and fills the canvas
    ensures r.padding.top == 0 && r.padding.left == 0
    ensures r.padding.bottom >= 0 && r.padding.right >= 0
    ensures r.padding.bottom == 0 || r.padding.right == 0
    ensures r.resizedHeight + r.padding.bottom == r.targetHeight
    ensures r.resizedWidth + r.padding.right == r.targetWidth
  {
    var (resizedHeight, resizedWidth, targetHeight, targetWidth) :=
      (if height > width then
        ScaledSideBounds(width, height, targetSize);
        var scaledWidth := CeilDiv(width * targetSize, height);
        (targetSize, scaledWidth, targetSize, RoundUpToStride(scaledWidth))
      else
        ScaledSideBounds(height, width, targetSize);
        var scaledHeight := CeilDiv(height * targetSize, width);
        (scaledHeight, targetSize, RoundUpToStride(scaledHeight), targetSize));
    Resized(
      resizedHeight, resizedWidth, targetHeight, targetWidth,
      Padding(0, targetHeight - resizedHeight, 0, targetWidth - resizedWidth))
  }

  /** The canvas is a multiple of the stride in both directions exactly
      when the target size is one: the longer side is never rounded. */
  lemma CanvasAligned(height: nat, width: nat, targetSize: nat)
    requires height > 0 && width > 0 && targetSize > 0
    ensures var r := KeepAspectRatio(height, width, targetSize);
      (r.targetHeight % STRIDE == 0 && r.targetWidth % STRIDE == 0)
      <==> targetSize % STRIDE == 0
  {
  }

  /** Without an aligned target size the longer side of the canvas is not a
      stride multiple: a 100 by 200 image resized to 250 yields a canvas
      250 pixels wide. */
  lemma UnalignedTargetExample()
    ensures KeepAspectRatio(100, 200, 250).targetWidth == 250
    ensures KeepAspectRatio(100, 200, 250).targetWidth % STRIDE != 0
  {
  }

  /** A square image is treated as wide: its width is the target size and
      only its height is rounded up to the stride. */
  lemma SquareIsWide(side: nat, targetSize: nat)
    requires side > 0 && targetSize > 0
    ensures var r := KeepAspectRatio(side, side, targetSize);
      && r.resizedHeight == targetSize && r.resizedWidth == targetSize
      && r.targetWidth == targetSize
      && r.targetHeight == RoundUpToStride(targetSize)
  {
    var r := KeepAspectRatio(side, side, targetSize);
    var q := r.resizedHeight;
    assert side * targetSize <= q * side < side * targetSize + side;
    if q < targetSize {
      MulMonotone(q, targetSize - 1, side);
    }
  }

  /** A worked case: a 100 by 200 image and target size 256 give a 128 by
      256 canvas that needs no border. */
  lemma WideImageExample()
    ensures var r := KeepAspectRatio(100, 200, 256);
      && r.resizedHeight == 128 && r.resizedWidth == 256
      && r.targetHeight == 128 && r.targetWidth == 256
      && r.padding == Padding(0, 0, 0, 0)
  {
  }
}
