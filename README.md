# fake-searches inference core, in Dafny

A model of `inference.cpp`, the part of the fake-searches desktop tool
that decides whether a picture is GAN-generated. The tool asks two
classifiers and reports both answers:

- a CLIP-based vision model, fed a 224 × 224 planar (CHW) tensor of the
  picture;
- an SVM, fed exposure features: the fractions of nearly white and, when
  enabled, nearly black pixels, after a scaler model.

The model covers the integer work and the bookkeeping around the library
calls, in the source's own form:

- `geometry.dfy`, module `Geometry`: the resize arithmetic of
  `imageToTensor`, the size asked of Qt and the centred crop offsets.
- `images.dfy`, module `Images`: pictures as a grid of RGB byte triples
  in scanline order, `QImage::pixel`, and `QImage::copy` of a window.
- `tensor.dfy`, module `Tensor`: the CHW tensor fill. It is an `array`
  filled in place by the three nested loops (`FillPlanar` with its
  innermost loop in `FillRow`), proved equal to a specification function
  `PlanarTensor`. Properties of the layout are proved about that
  function.
- `saturation.dfy`, module `Saturation`: `extractSaturationFeatures`. Its
  loops append one fraction per threshold, and the result is proved equal
  to the specification function `SaturationFeatures`. Bounds, monotonicity
  and the uniform-picture cases are proved about that function.
- `inference.dfy`, module `Inference`: `normalizeFeatures` and `analyze`,
  which fill a two-field result that starts at `{-1, -1}`. For an `RGB888`
  picture, `analyze` wraps the picture's own pixel buffer in a `cv::Mat`
  and converts it to BGR in place, so the caller's picture is left with red
  and blue exchanged. The model returns that picture next to the result.
- `arith.dfy`, module `Arith`: helper facts about products and integer
  division.

Library calls whose code is not part of the repository are parameters:

- Qt's scaling (`scale`);
- OpenCV's BGR-to-gray weighting (`luma`);
- the three ONNX sessions (`Sessions`).

Channel values and fractions are reals rather than 32-bit floats. All
divisions in the resize arithmetic have non-negative numerators, so C++'s
truncating division agrees with Dafny's.

`inference.h` is out of date. It declares a one-path constructor, a
`float analyze` and `runInference`, which `inference.cpp` does not
define, and it does not declare `useUnderexposed`. The model follows
`inference.cpp`, with `useUnderexposed` as a boolean parameter.

## Model

| member | source | states |
|---|---|---|
| Geometry.ScaledSize | inference.cpp:62-72 | a landscape picture keeps the target height, and its width is the floor of target·width/height, at least the target; otherwise the same with width and height exchanged |
| Geometry.CropOffsets | inference.cpp:77-79 | when the scaled picture is at least the target, the offsets are non-negative, the window lies inside the scaled picture, and the far margin equals the near one or exceeds it by one |
| Geometry.SquareTargetCovered | inference.cpp:62-72 | with a square target, both sides of the requested size reach the target |
| Geometry.NonSquareTargetNotCovered | inference.cpp:66-72 | with a non-square target, the requested size can be narrower than the crop window (a 300 × 200 picture with target height 100 and target width 200 is scaled to 150 × 100) |
| Images.Pixel | inference.cpp:93 | `QImage::pixel(x, y)` of a well-formed picture, for x and y inside it, is one of the picture's pixels (which one is stated by `Images.Crop` and `Tensor.TensorCell`) |
| Images.Crop | inference.cpp:79 | the copy has the window's size, and pixel (x, y) of it is pixel (x0 + x, y0 + y) of the scaled picture |
| Tensor.Channel | inference.cpp:95-97 | channel 0 of a pixel is its red byte, 1 its green byte, 2 its blue byte |
| Tensor.Normalize | inference.cpp:95-100 | undoing the normalisation (times std, plus mean) gives back the byte divided by 255 |
| Tensor.ChannelValue | inference.cpp:93-100 | the branch on the channel and the normalisation step compute the normalised channel c of the pixel |
| Tensor.NormalizeStrictlyIncreasing | inference.cpp:86-87 | normalising with the positive per-channel std keeps the order of byte values |
| Tensor.PlanarTensor | inference.cpp:84 | the tensor has exactly 3·H·W cells |
| Tensor.Offset | inference.cpp:103 | for a column inside the row, the index taken modulo W gives back the column x, and divided by W gives the stacked row c·H + y |
| Tensor.OffsetInjective | inference.cpp:103 | every (c, y, x) in the box lands inside [0, 3HW), and decoding the index gives back (c, y, x), so no two triples share a cell |
| Tensor.OffsetSurjective | inference.cpp:90-103 | every cell of [0, 3HW) is the index of an in-range (c, y, x), so no cell is left unwritten |
| Tensor.TensorCell | inference.cpp:93-103 | cell c·H·W + y·W + x holds channel c (0 red, 1 green, 2 blue) of pixel (x, y), normalised with that channel's mean and std |
| Tensor.ChannelBlocks | inference.cpp:90-106 | each channel fills its own contiguous block [c·H·W, (c+1)·H·W) |
| Tensor.SolidColorTensor | inference.cpp:90-103 | for a picture of one colour, every cell of block c holds that colour's normalised channel c |
| Tensor.CroppedInput | inference.cpp:74-81 | the picture the tensor is built from is valid and exactly target-sized |
| Tensor.ImageToTensor | inference.cpp:60-108 | the buffer returned is the planar tensor of the centred crop of the scaled picture, and cells are written in order 0, 1, ..., 3HW - 1, each once |
| Tensor.FillPlanar | inference.cpp:84-106 | after the three loops, the buffer equals the planar tensor of the picture, and the indices written, in order, are exactly 0 .. 3HW - 1 |
| Tensor.FillRow | inference.cpp:92-104 | one row of one channel extends the filled prefix by W cells, written at consecutive indices, and every cell after the row keeps its old value |
| Saturation.Mat.IsEmpty | inference.cpp:112 | a matrix is empty exactly when it has no rows or no columns |
| Saturation.SupportedChannels | inference.cpp:119-126 | the channel counts the gray conversion accepts are 3 (converted from BGR) and 1 (used as is); any other count ends the extraction with no features |
| Saturation.Gray | inference.cpp:118-126 | the gray picture has one byte per pixel |
| Saturation.SaturationFeatures | inference.cpp:111-149 | the feature list is empty exactly for an empty picture or a channel count other than 1 and 3; otherwise it has 4 entries, or 8 with underexposed features |
| Saturation.ExtractSaturationFeatures | inference.cpp:111-149 | the guard clauses and the two appending loops return exactly the overexposed fractions at 240, 245, 250, 255, then, if enabled, the underexposed fractions at 0, 5, 10, 15 |
| Saturation.CountAtLeast | inference.cpp:134 | the count of pixels at or above the threshold never exceeds the number of pixels |
| Saturation.CountAtMost | inference.cpp:142 | the count of pixels at or below the threshold never exceeds the number of pixels |
| Saturation.Ratio | inference.cpp:135 | the fraction times the pixel count is the count |
| Saturation.OverexposedFractions | inference.cpp:129-136 | one fraction per overexposed threshold |
| Saturation.UnderexposedFractions | inference.cpp:140-144 | one fraction per underexposed threshold |
| Saturation.CountAtLeastAntitone | inference.cpp:129-136 | raising an overexposed threshold never counts more pixels |
| Saturation.CountAtMostMonotone | inference.cpp:139-144 | raising an underexposed threshold never counts fewer pixels |
| Saturation.CountsPartition | inference.cpp:134-142 | the count at or above t + 1 and the count at or below t add up to the number of pixels |
| Saturation.UniformCounts | inference.cpp:134-142 | in a picture of one gray value, each threshold counts all pixels or none |
| Saturation.FeaturesAreFractions | inference.cpp:128-145 | every feature lies in [0, 1] |
| Saturation.FeaturesOrdered | inference.cpp:129-145 | the overexposed fractions never increase along the list, and the underexposed ones never decrease |
| Saturation.UniformFeatures | inference.cpp:128-145 | for a picture of one gray value v, each feature is 1 when v passes its threshold and 0 otherwise |
| Saturation.WhiteBlackGrayFeatures | inference.cpp:128-145 | an all-white picture gives overexposed 1s and underexposed 0s, an all-black one the reverse, and a mid-gray (128) one all 0s |
| Inference.NormalizeFeatures | inference.cpp:151-155 | empty features give an empty result; otherwise there is one scaled value per feature, as the scaler session writes it |
| Inference.SvmFormat | inference.cpp:283-289 | the SVM branch converts exactly the RGB32, ARGB32 and RGB888 pictures; for any other format `analyze` returns early |
| Inference.BgrMat | inference.cpp:281-289 | the matrix built for either supported format has the picture's rows and columns and 3 channels, and pixel j is (blue, green, red) of picture pixel j |
| Inference.ClipInput | inference.cpp:276-277 | the CLIP tensor has 3 · 224 · 224 cells, so it is never empty |
| Inference.SvmInput | inference.cpp:295-298 | the SVM input has 4 scaled features, or 8 with underexposed features, for any non-null picture, and is empty only for a null one |
| Inference.SwapRedBlue | inference.cpp:286-288 | the RGB888 picture after the in-place conversion has red and blue exchanged in every pixel, green and size unchanged |
| Inference.SwapRedBlueInvolution | inference.cpp:286-288 | swapping twice restores the picture |
| Inference.SwapRedBlueUnchangedIff | inference.cpp:286-288 | the swap leaves the picture as it was exactly when every pixel has equal red and blue bytes |
| Inference.PictureAfterAnalyze | inference.cpp:283-292 | only an RGB888 picture is changed; the format is kept |
| Inference.Analyze | inference.cpp:272-306 | the CLIP slot always holds the CLIP probability of the 224 × 224 tensor; the SVM slot holds the SVM probability of the scaled features if the format is RGB32, ARGB32 or RGB888, and stays -1 exactly when it is not; an RGB888 picture is left with red and blue swapped, any other picture as it was |
| Inference.GrayPictureFeatures | inference.cpp:119-145 | with a gray conversion that maps an equal-channel pixel to its own value, an all-white picture gives overexposed 1s and underexposed 0s, an all-black one the reverse, and a mid-gray (128) one all 0s |

## Left out

- The `Inference` constructor (inference.cpp:7-58) is not modelled. It checks that files exist, reads them and creates the ONNX sessions, which is file I/O and a native runtime. The sessions are given as parameters.
- The ONNX Runtime internals of `normalizeFeatures`, `runClipInference` and `runSvmInference` (inference.cpp:157-184, 187-230, 232-270) are not modelled: the shape queries, tensor names and output buffers. The scaler is a parameter giving each scaled value. The CLIP and SVM sessions are parameters assumed to return a probability.
- The sigmoid `1/(1+exp(-logit))` (inference.cpp:226) is not modelled; the CLIP session parameter stands for its result. The single-precision rounding of the normalisation and of the fractions is also not modelled: both are reals.
- Qt's `QImage::scaled` with `KeepAspectRatio`/`SmoothTransformation` is the `scale` parameter and is not modelled.
- `Tensor.ScaledCovers` is assumed, not derived from Qt's behaviour, and it excludes many portrait pictures. Qt fits the picture inside the requested size. For a portrait picture of width w and height h the request is 224 × floor(224·h/w), and reading `QSize::scaled` with `KeepAspectRatio`, Qt answers with width floor(floor(224·h/w)·w/h). That width is 223, not 224, whenever w does not divide 224·h. A 3000 × 4000 picture, for example, is scaled to 223 × 298, as are most 3:4 and 9:16 photos. For those pictures the source computes `xOffset = (223 - 224) / 2`, which is 0 under C++ truncation, and `QImage::copy` fills the window's last column, which lies outside the scaled picture, with zero bytes. The model does not cover them. The requirement holds for landscape and square pictures, and for portrait ones whose width divides 224·h. This reading of Qt is not executed, and Qt's code is not part of this model.
- `QImage::convertToFormat(Format_RGB888)` is not modelled: pictures are held as colours, so it does not change them.
- OpenCV's `cvtColor` gray weighting is the `luma` parameter. The BGRA/RGB-to-BGR conversions are modelled by their result, pixels in blue, green, red order. For RGB888 the write back into the picture's buffer is modelled too.
- Inference.Analyze: the picture is a value, so the write into the caller's shared `QImage` buffer is modelled as a returned picture (`after`) rather than as aliasing.
- `countNonZero` of a comparison mask is re-specified directly as a count over the gray bytes.
- Row padding (`bytesPerLine`) is not modelled.
- Exceptions are not modelled: a missing SVM session throws in `runSvmInference` (inference.cpp:240-243), and ONNX errors are re-thrown. The model assumes the sessions are loaded.
- 32-bit `int` overflow of `3 * targetHeight * targetWidth`, `targetHeight * originalWidth` and `rows * cols` is not modelled. Integers are unbounded.
- Inference.Analyze: requires a non-empty, well-formed picture. The only caller refuses a null picture (mainwindow.cpp:56-59), and `imageToTensor` divides by the picture's sides without a guard.
- `mainwindow.cpp` and `mainwindow.h` are not modelled (widgets, file dialog, result text). Neither is `inference.h`, which is out of date.
- The `qDebug` and `std::cout` logging is not modelled.
