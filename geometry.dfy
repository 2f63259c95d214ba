/** The integer arithmetic that `Inference::imageToTensor` does before it
    touches a pixel: the size it asks Qt to scale the picture to, and the
    offsets of the centred crop window it cuts out of the scaled picture. */
module Geometry {
  import Arith

  datatype Size = Size(width: int, height: int)

  /** The size handed to `QImage::scaled`: the shorter side of the original
      becomes the target and the longer side keeps the aspect ratio, rounded
      down by integer division. The width/height branch and the choice of
      target are the source's own: a landscape picture is scaled with the
      target height, anything else with the target width. Both sides are
      positive because the division is unguarded; both targets are
      non-negative, so C++'s truncating division agrees with Dafny's. */
  function ScaledSize(originalWidth: int, originalHeight: int, targetHeight: int, targetWidth: int): (r: Size)
    requires originalWidth > 0 && originalHeight > 0
    requires targetHeight >= 0 && targetWidth >= 0
    // landscape: the height becomes the target, the width the largest value
    // whose ratio to the height does not exceed the original ratio
    ensures originalWidth > originalHeight ==>
              r.height == targetHeight &&
              r.width * originalHeight <= targetHeight * originalWidth < (r.width + 1) * originalHeight &&
              r.width >= targetHeight
    // portrait or square: the same with the roles of the sides exchanged
    ensures originalWidth <= originalHeight ==>
              r.width == targetWidth &&
              r.height * originalWidth <= targetWidth * originalHeight < (r.height + 1) * originalWidth &&
              r.height >= targetWidth
  {
    if originalWidth > originalHeight then
      var w := (targetHeight * originalWidth) / originalHeight;
      Arith.FloorDiv(targetHeight * originalWidth, originalHeight);
      Arith.MulMonotone(originalHeight, originalWidth, targetHeight);
      assert targetHeight * originalHeight < (w + 1) * originalHeight;
      LessAfterScaling(targetHeight, w + 1, originalHeight);
      Size(w, targetHeight)
    else
      var h := (targetWidth * originalHeight) / originalWidth;
      Arith.FloorDiv(targetWidth * originalHeight, originalWidth);
      Arith.MulMonotone(originalWidth, originalHeight, targetWidth);
      assert targetWidth * originalWidth < (h + 1) * originalWidth;
      LessAfterScaling(targetWidth, h + 1, originalWidth);
      Size(targetWidth, h)
  }

  /** Cancelling a positive factor on both sides of a strict inequality. */
  lemma LessAfterScaling(a: int, b: int, k: int)
    requires k > 0 && a * k < b * k
    ensures a < b
  {
    if a >= b {
      Arith.MulMonotone(b, a, k);
    }
  }

  /** Offsets of the `targetWidth × targetHeight` window that
      `QImage::copy` cuts from the scaled picture. The scaled picture is
      at least as large as the window, so the numerators are
      non-negative and truncating division agrees with Dafny's. The
      window lies inside the scaled picture and is centred: the margin
      on the far side equals the near one or exceeds it by one pixel. */
  function CropOffsets(scaledWidth: int, scaledHeight: int, targetWidth: int, targetHeight: int): (r: (int, int))
    requires 0 <= targetWidth <= scaledWidth && 0 <= targetHeight <= scaledHeight
    ensures 0 <= r.0 && r.0 + targetWidth <= scaledWidth
    ensures 0 <= r.1 && r.1 + targetHeight <= scaledHeight
    ensures r.0 <= scaledWidth - targetWidth - r.0 <= r.0 + 1
    ensures r.1 <= scaledHeight - targetHeight - r.1 <= r.1 + 1
  {
    ((scaledWidth - targetWidth) / 2, (scaledHeight - targetHeight) / 2)
  }

  /** With a square target, the only way `imageToTensor` is called, the
      size asked of Qt covers the crop window on both sides. */
  lemma SquareTargetCovered(originalWidth: int, originalHeight: int, target: int)
    requires originalWidth > 0 && originalHeight > 0 && target >= 0
    ensures var s := ScaledSize(originalWidth, originalHeight, target, target);
            s.width >= target && s.height >= target
  {
  }

  /** With a target that is not square the size asked of Qt can be narrower
      than the crop window: a 300 × 200 picture with target height 100 and
      target width 200 is scaled to 150 × 100. */
  lemma NonSquareTargetNotCovered()
    ensures ScaledSize(300, 200, 100, 200) == Size(150, 100)
    ensures ScaledSize(300, 200, 100, 200).width < 200
  {
  }
}
