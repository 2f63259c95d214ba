/** `Inference::analyze` and `Inference::normalizeFeatures`: the two
    classifiers' results packed into one record, with -1 marking a result
    that was not computed. The three ONNX sessions are parameters: what
    each returns for a given input is not modelled, only that the CLIP and
    SVM sessions return probabilities. */
module Inference {
  import Arith
  import opened Images
  import Tensor
  import Saturation

  /** The pixel formats `analyze` distinguishes; every other `QImage`
      format is `OtherFormat`. */
  datatype Format = RGB32 | ARGB32 | RGB888 | OtherFormat

  /** A `QImage`: its pixel format and its pixels as colours. */
  datatype Picture = Picture(format: Format, image: Image)

  /** The loaded ONNX sessions. `clip` maps the planar input tensor to the
      GAN probability after the sigmoid, `scaler` gives the value it writes
      into cell `i` of the scaled features, `svm` maps the scaled features
      to the probability of the GAN class. */
  datatype Sessions = Sessions(
    clip: seq<real> -> real,
    scaler: (seq<real>, nat) -> real,
    svm: seq<real> -> real)

  predicate IsProbability(p: real) {
    0.0 <= p <= 1.0
  }

  ghost predicate ReturnsProbabilities(sessions: Sessions) {
    (forall t :: IsProbability(sessions.clip(t))) &&
    (forall f :: IsProbability(sessions.svm(f)))
  }

  datatype InferenceResult = InferenceResult(clipProbGan: real, svmProbGan: real)

  /** The value of a result that was not computed. */
  const NotComputed: real := -1.0

  const ClipSize: nat := 224

  /** `normalizeFeatures`: nothing for no features, otherwise one scaled
      value per feature, as the scaler session writes them. */
  function NormalizeFeatures(scaler: (seq<real>, nat) -> real, features: seq<real>): (r: seq<real>)
    ensures |r| == |features|
    ensures forall i :: 0 <= i < |r| ==> r[i] == scaler(features, i)
  {
    if features == [] then [] else seq(|features|, i requires 0 <= i < |features| => scaler(features, i))
  }

  /** The formats the SVM branch converts: every format `analyze` tells
      apart, and no other. */
  predicate SvmFormat(format: Format)
    ensures SvmFormat(format) <==> format != OtherFormat
  {
    format == RGB32 || format == ARGB32 || format == RGB888
  }

  /** The three-channel `cv::Mat` built over the picture's bytes and
      converted to BGR order: from BGRA for the 32-bit formats, from RGB for
      `RGB888`. Either way pixel `j` holds blue, green, red. */
  function BgrMat(img: Image): (m: Saturation.Mat)
    requires img.Valid()
    ensures m.Valid() && m.rows == img.height && m.cols == img.width && m.channels == 3
    ensures forall j :: 0 <= j < |img.pixels| ==>
              m.data[j] == [img.pixels[j].blue, img.pixels[j].green, img.pixels[j].red]
  {
    Saturation.Mat(img.height, img.width, 3,
      seq(|img.pixels|, j requires 0 <= j < |img.pixels| =>
        [img.pixels[j].blue, img.pixels[j].green, img.pixels[j].red]))
  }

  /** The bytes of an `RGB888` picture after `analyze`. Its matrix shares
      the picture's pixel buffer, and the in-place `cvtColor(RGB2BGR)`
      stores blue, green, red where the picture keeps red, green, blue: red
      and blue trade places. */
  function SwapRedBlue(img: Image): (r: Image)
    requires img.Valid()
    ensures r.Valid() && r.width == img.width && r.height == img.height
    ensures forall j :: 0 <= j < |img.pixels| ==>
              r.pixels[j] == Rgb(img.pixels[j].blue, img.pixels[j].green, img.pixels[j].red)
  {
    Image(img.width, img.height,
      seq(|img.pixels|, j requires 0 <= j < |img.pixels| =>
        Rgb(img.pixels[j].blue, img.pixels[j].green, img.pixels[j].red)))
  }

  /** Swapping twice gives back the original bytes. */
  lemma SwapRedBlueInvolution(img: Image)
    requires img.Valid()
    ensures SwapRedBlue(SwapRedBlue(img)) == img
  {
    var twice := SwapRedBlue(SwapRedBlue(img));
    assert twice.pixels == img.pixels;
  }

  /** The swap leaves the picture as it was exactly when every pixel has
      equal red and blue bytes. */
  lemma SwapRedBlueUnchangedIff(img: Image)
    requires img.Valid()
    ensures SwapRedBlue(img) == img <==>
            forall j :: 0 <= j < |img.pixels| ==> img.pixels[j].red == img.pixels[j].blue
  {
    if SwapRedBlue(img) == img {
      forall j | 0 <= j < |img.pixels| ensures img.pixels[j].red == img.pixels[j].blue {
        assert SwapRedBlue(img).pixels[j] == img.pixels[j];
      }
    }
  }

  /** The picture as `analyze` leaves it: changed only for `RGB888`. */
  function PictureAfterAnalyze(picture: Picture): (after: Picture)
    requires picture.image.Valid()
    ensures after.format == picture.format && after.image.Valid()
    ensures picture.format != RGB888 ==> after == picture
  {
    if picture.format == RGB888 then Picture(RGB888, SwapRedBlue(picture.image)) else picture
  }

  /** The tensor `analyze` hands to the CLIP session: never empty, so the
      CLIP slot is always written. */
  function ClipInput(picture: Picture, scale: (int, int) -> Image): (t: seq<real>)
    requires Tensor.ScaledCovers(picture.image, scale, ClipSize, ClipSize)
    ensures |t| == 3 * ClipSize * ClipSize
  {
    Tensor.PlanarTensor(Tensor.CroppedInput(picture.image, scale, ClipSize, ClipSize))
  }

  /** The features `analyze` hands to the SVM session: 4 scaled features, or
      8 with underexposed features, for any non-null picture, so the
      empty-list exits are taken only by a null one. */
  function SvmInput(picture: Picture, sessions: Sessions, useUnderexposed: bool, luma: Saturation.Luma): (f: seq<real>)
    requires picture.image.Valid()
    ensures |f| == if picture.image.height * picture.image.width == 0 then 0
                   else if useUnderexposed then 8 else 4
  {
    NormalizeFeatures(sessions.scaler,
      Saturation.SaturationFeatures(BgrMat(picture.image), useUnderexposed, luma))
  }

  /** `analyze` for a picture that is not null (the caller refuses a null
      one). The CLIP slot always holds the CLIP probability of the
      224 × 224 input; the SVM slot holds the SVM probability exactly when
      the format is one the SVM branch converts, and -1 otherwise. `after`
      is the caller's picture once `analyze` returns: for `RGB888` the
      conversion has written blue, green, red back into its pixels. */
  method Analyze(picture: Picture, scale: (int, int) -> Image, sessions: Sessions,
                 useUnderexposed: bool, luma: Saturation.Luma)
    returns (result: InferenceResult, after: Picture)
    requires picture.image.Valid()
    requires Tensor.ScaledCovers(picture.image, scale, ClipSize, ClipSize)
    requires ReturnsProbabilities(sessions)
    ensures result.clipProbGan == sessions.clip(ClipInput(picture, scale))
    ensures IsProbability(result.clipProbGan)
    ensures SvmFormat(picture.format) ==>
              result.svmProbGan == sessions.svm(SvmInput(picture, sessions, useUnderexposed, luma))
    ensures SvmFormat(picture.format) <==> IsProbability(result.svmProbGan)
    ensures !SvmFormat(picture.format) <==> result.svmProbGan == NotComputed
    ensures after == PictureAfterAnalyze(picture)
  {
    result := InferenceResult(NotComputed, NotComputed);
    after := picture;

    var clipTensor, _ := Tensor.ImageToTensor(picture.image, scale, ClipSize, ClipSize);
    if clipTensor.Length != 0 {
      result := result.(clipProbGan := sessions.clip(clipTensor[..]));
    }

    var cvImage: Saturation.Mat;
    if picture.format == RGB32 || picture.format == ARGB32 {
      // four channels to three: the conversion allocates a new buffer
      cvImage := BgrMat(picture.image);
    } else if picture.format == RGB888 {
      // three channels to three: the conversion reuses the picture's buffer
      cvImage := BgrMat(picture.image);
      after := Picture(RGB888, SwapRedBlue(picture.image));
    } else {
      return;
    }

    var features := Saturation.ExtractSaturationFeatures(cvImage, useUnderexposed, luma);
    if features != [] {
      var scaledFeatures := NormalizeFeatures(sessions.scaler, features);
      if scaledFeatures != [] {
        result := result.(svmProbGan := sessions.svm(scaledFeatures));
      }
    }
  }

  /** A non-null picture of one gray colour (equal red, green and blue),
      with a gray conversion that maps such a pixel to its own value, as
      OpenCV's weights summing to one do: white is overexposed at every
      threshold and underexposed at none, black the reverse, mid-gray
      (128) neither. */
  lemma GrayPictureFeatures(img: Image, useUnderexposed: bool, luma: Saturation.Luma, v: Byte)
    requires img.Valid() && img.width > 0 && img.height > 0
    requires forall b: Byte :: luma(b, b, b) == b
    requires v == 255 || v == 0 || v == 128
    requires forall j :: 0 <= j < |img.pixels| ==> img.pixels[j] == Rgb(v, v, v)
    ensures var f := Saturation.SaturationFeatures(BgrMat(img), useUnderexposed, luma);
            f[..4] == (if v == 255 then [1.0, 1.0, 1.0, 1.0] else [0.0, 0.0, 0.0, 0.0]) &&
            (useUnderexposed ==> f[4..] == if v == 0 then [1.0, 1.0, 1.0, 1.0] else [0.0, 0.0, 0.0, 0.0])
  {
    var m := BgrMat(img);
    Arith.MulMonotone(1, img.height, img.width);
    var gray := Saturation.Gray(m, luma);
    forall i | 0 <= i < |gray| ensures gray[i] == v {
      assert m.data[i] == [v, v, v];
    }
    Saturation.WhiteBlackGrayFeatures(m, useUnderexposed, luma, v);
  }
}
