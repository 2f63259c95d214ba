/** The planar (channel-major, CHW) float tensor that
    `Inference::imageToTensor` builds for the vision classifier: the
    picture is scaled so that its shorter side is the target, the centred
    target-sized window is cut out, and every channel value is normalised
    with the classifier's per-channel mean and standard deviation. Values
    are reals here: single-precision rounding is not modelled. */
module Tensor {
  import Arith
  import Geometry
  import opened Images

  /** Per-channel mean and standard deviation, red, green, blue. */
  const Mean: seq<real> := [0.48145466, 0.4578275, 0.40821073]
  const Std: seq<real> := [0.26862954, 0.26130258, 0.27577711]

  /** Channel `c` of a pixel: 0 is red, 1 is green, 2 is blue. */
  function Channel(p: Rgb, c: int): (v: Byte)
    requires 0 <= c < 3
    ensures v == [p.red, p.green, p.blue][c]
  {
    if c == 0 then p.red else if c == 1 then p.green else p.blue
  }

  /** `(v / 255 - mean[c]) / std[c]`. */
  function Normalize(c: int, v: Byte): (r: real)
    requires 0 <= c < 3
    // undoing the normalisation gives back the byte scaled to [0, 1]
    ensures r * Std[c] + Mean[c] == v as real / 255.0
  {
    (v as real / 255.0 - Mean[c]) / Std[c]
  }

  /** Normalisation keeps the order of channel values, so distinct bytes stay
      distinct in the tensor. */
  lemma NormalizeStrictlyIncreasing(c: int, v: Byte, u: Byte)
    requires 0 <= c < 3 && v < u
    ensures Normalize(c, v) < Normalize(c, u)
  {
    var a, b := v as real / 255.0 - Mean[c], u as real / 255.0 - Mean[c];
    assert a < b;
    assert Std[c] > 0.0;
  }

  /** All values of channel `c`, in scanline order. */
  function Plane(img: Image, c: int): (s: seq<real>)
    requires img.Valid() && 0 <= c < 3
    ensures |s| == img.width * img.height
  {
    seq(|img.pixels|, j requires 0 <= j < |img.pixels| => Normalize(c, Channel(img.pixels[j], c)))
  }

  /** The CHW tensor: the red plane, then the green plane, then the blue plane. */
  function PlanarTensor(img: Image): (t: seq<real>)
    requires img.Valid()
    ensures |t| == 3 * img.height * img.width
  {
    Plane(img, 0) + Plane(img, 1) + Plane(img, 2)
  }

  /** Index of channel `c` of pixel `(x, y)` in a CHW tensor of `h` rows of
      `w` pixels. */
  function Offset(c: int, y: int, x: int, h: int, w: int): (i: int)
    // read as a row-major index over the 3·h rows of width `w`: the column
    // is the remainder and the stacked row `c·h + y` the quotient
    ensures 0 <= x < w ==> i % w == x && i / w == c * h + y
  {
    if 0 <= x < w then
      Arith.DivModOfSum(c * h + y, w, x);
      assert c * h * w + y * w == (c * h + y) * w;
      c * h * w + y * w + x
    else
      c * h * w + y * w + x
  }

  /** Channel, row and column of tensor index `i`: the inverse of `Offset`. */
  function Coordinates(i: int, h: int, w: int): (int, int, int)
    requires h > 0 && w > 0
  {
    (i / (h * w), (i % (h * w)) / w, (i % (h * w)) % w)
  }

  /** `Offset` maps the box `[0,3) × [0,h) × [0,w)` into `[0, 3hw)`, and
      `Coordinates` recovers the triple it came from, so no two triples
      share a cell. */
  lemma {:induction false} OffsetInjective(c: int, y: int, x: int, h: int, w: int)
    requires 0 <= c < 3 && 0 <= y < h && 0 <= x < w
    ensures 0 <= Offset(c, y, x, h, w) < 3 * h * w
    ensures Coordinates(Offset(c, y, x, h, w), h, w) == (c, y, x)
  {
    var plane := h * w;
    var r := y * w + x;
    Arith.RowMajorInRange(y, x, w, h);
    Arith.MulAssoc(c, h, w);
    assert Offset(c, y, x, h, w) == c * plane + r;
    Arith.MulMonotone(0, c, plane);
    Arith.MulMonotone(c + 1, 3, plane);
    Arith.MulAssoc(3, h, w);
    Arith.DivModOfSum(c, plane, r);
    Flatten(x, y, w);
  }

  /** Every index of a CHW tensor is the `Offset` of exactly the triple that
      `Coordinates` gives for it. */
  lemma {:induction false} OffsetSurjective(i: int, h: nat, w: nat)
    requires 0 <= i < 3 * h * w
    ensures h > 0 && w > 0
    ensures var (c, y, x) := Coordinates(i, h, w);
            0 <= c < 3 && 0 <= y < h && 0 <= x < w && Offset(c, y, x, h, w) == i
  {
    var plane := h * w;
    assert i < 3 * plane && plane > 0 by {
      Arith.MulAssoc(3, h, w);
    }
    var c, m := i / plane, i % plane;
    assert 0 <= c < 3 by {
      assert i == plane * c + m;
      if c >= 3 {
        Arith.MulMonotone(3, c, plane);
      }
    }
    Unflatten(m, w, h);
    assert Offset(c, m / w, m % w, h, w) == i by {
      Arith.MulAssoc(c, h, w);
      assert i == c * plane + m;
    }
  }

  /** The cell at `Offset(c, y, x)`, that is `c·h·w + y·w + x`, holds
      channel `c` of pixel `(x, y)`, normalised with that channel's
      constants. */
  lemma {:induction false} TensorCell(img: Image, c: int, y: int, x: int)
    requires img.Valid() && 0 <= c < 3 && 0 <= y < img.height && 0 <= x < img.width
    ensures var i := c * img.height * img.width + y * img.width + x;
            0 <= i < |PlanarTensor(img)| &&
            PlanarTensor(img)[i] == Normalize(c, Channel(Pixel(img, x, y), c))
  {
    var h, w := img.height, img.width;
    OffsetInjective(c, y, x, h, w);
    var j := OffsetSplit(c, y, x, h, w);
    BlockIndex(Plane(img, 0), Plane(img, 1), Plane(img, 2), c, j);
  }

  /** `Offset(c, y, x)` is `c` whole planes plus the scanline position of
      `(x, y)` within one plane. */
  lemma OffsetSplit(c: int, y: int, x: int, h: int, w: int) returns (j: int)
    requires 0 <= c < 3 && 0 <= y < h && 0 <= x < w
    ensures j == y * w + x && 0 <= j < w * h
    ensures Offset(c, y, x, h, w) == c * (w * h) + j
  {
    j := y * w + x;
    Arith.RowMajorInRange(y, x, w, h);
    assert c * h * w == c * (w * h);
  }

  /** Position `j` of block `c` of three equally long blocks. */
  lemma BlockIndex(p0: seq<real>, p1: seq<real>, p2: seq<real>, c: int, j: int)
    requires |p0| == |p1| == |p2| && 0 <= c < 3 && 0 <= j < |p0|
    ensures 0 <= c * |p0| + j < |p0 + p1 + p2|
    ensures (p0 + p1 + p2)[c * |p0| + j] == [p0, p1, p2][c][j]
  {
  }

  /** Every tensor index in the block `[c·h·w, (c+1)·h·w)` holds a value of
      channel `c`: the three channels occupy three contiguous blocks. */
  lemma {:induction false} ChannelBlocks(img: Image, c: int)
    requires img.Valid() && 0 <= c < 3
    ensures var plane := img.height * img.width;
            PlanarTensor(img)[c * plane .. (c + 1) * plane] == Plane(img, c)
  {
    var plane := img.height * img.width;
    var t := PlanarTensor(img);
    assert |Plane(img, 0)| == plane;
    if c == 0 {
      assert t[..plane] == Plane(img, 0);
    } else if c == 1 {
      assert t[plane .. 2 * plane] == Plane(img, 1);
    } else {
      assert t[2 * plane .. 3 * plane] == Plane(img, 2);
    }
  }

  /** A picture of one colour gives, in every cell of channel `c`, the
      normalised channel `c` of that colour, wherever the cell lies. */
  lemma {:induction false} SolidColorTensor(img: Image, p: Rgb, i: int)
    requires img.Valid() && forall j :: 0 <= j < |img.pixels| ==> img.pixels[j] == p
    requires 0 <= i < 3 * img.height * img.width
    ensures var c := i / (img.height * img.width);
            0 <= c < 3 && PlanarTensor(img)[i] == Normalize(c, Channel(p, c))
  {
    OffsetSurjective(i, img.height, img.width);
    var (c, y, x) := Coordinates(i, img.height, img.width);
    TensorCell(img, c, y, x);
  }

  /** The picture the classifier sees: `image` scaled by Qt (`scale`,
      standing for `QImage::scaled` with the aspect ratio kept, bound to the
      image) to the size `ScaledSize` asks for, then the centred window. */
  predicate ScaledCovers(image: Image, scale: (int, int) -> Image, targetHeight: nat, targetWidth: nat)
  {
    image.width > 0 && image.height > 0 &&
    var size := Geometry.ScaledSize(image.width, image.height, targetHeight, targetWidth);
    var scaled := scale(size.width, size.height);
    scaled.Valid() && scaled.width >= targetWidth && scaled.height >= targetHeight
  }

  function CroppedInput(image: Image, scale: (int, int) -> Image, targetHeight: nat, targetWidth: nat): (r: Image)
    requires ScaledCovers(image, scale, targetHeight, targetWidth)
    ensures r.Valid() && r.width == targetWidth && r.height == targetHeight
  {
    var size := Geometry.ScaledSize(image.width, image.height, targetHeight, targetWidth);
    var scaled := scale(size.width, size.height);
    var offsets := Geometry.CropOffsets(scaled.width, scaled.height, targetWidth, targetHeight);
    Crop(scaled, offsets.0, offsets.1, targetWidth, targetHeight)
  }

  /** `imageToTensor`: scale the picture, cut out the centred window and
      convert it. The buffer holds the planar tensor of the cropped picture;
      `writes` lists the indices in the order they were written. */
  method ImageToTensor(image: Image, scale: (int, int) -> Image, targetHeight: nat, targetWidth: nat)
    returns (tensor: array<real>, ghost writes: seq<int>)
    requires ScaledCovers(image, scale, targetHeight, targetWidth)
    ensures fresh(tensor)
    ensures tensor[..] == PlanarTensor(CroppedInput(image, scale, targetHeight, targetWidth))
    ensures writes == seq(3 * targetHeight * targetWidth, i => i)
  {
    var size := Geometry.ScaledSize(image.width, image.height, targetHeight, targetWidth);
    var scaled := scale(size.width, size.height);
    var offsets := Geometry.CropOffsets(scaled.width, scaled.height, targetWidth, targetHeight);
    var cropped := Crop(scaled, offsets.0, offsets.1, targetWidth, targetHeight);
    tensor := new real[3 * targetHeight * targetWidth];
    writes := FillPlanar(cropped, tensor);
  }

  /** The first `n` cells of `tensor` already hold the planar tensor of
      `img`. */
  ghost predicate Filled(tensor: array<real>, img: Image, n: int)
    reads tensor
  {
    img.Valid() && 0 <= n <= tensor.Length && tensor.Length == |PlanarTensor(img)| &&
    forall i :: 0 <= i < n ==> tensor[i] == PlanarTensor(img)[i]
  }

  /** Cells from `n` on still hold what `snapshot` records. */
  ghost predicate KeptFrom(tensor: array<real>, n: int, snapshot: seq<real>)
    reads tensor
  {
    0 <= n && tensor.Length == |snapshot| && forall i :: n <= i < tensor.Length ==> tensor[i] == snapshot[i]
  }

  /** The fill loop of `imageToTensor`: three nested loops, channel
      outermost, then row, then column, each step writing the normalised
      channel `c` of pixel `(x, y)` to cell `c·h·w + y·w + x`. The buffer
      ends up equal to the planar tensor of the picture, and the indices
      written, in order, are `0, 1, ..., 3·h·w - 1`: each cell is written
      exactly once. */
  method FillPlanar(img: Image, tensor: array<real>) returns (ghost writes: seq<int>)
    requires img.Valid() && tensor.Length == 3 * img.height * img.width
    modifies tensor
    ensures tensor[..] == PlanarTensor(img)
    ensures writes == seq(tensor.Length, i => i)
  {
    var targetHeight: int, targetWidth: int := img.height, img.width;
    writes := [];
    var c: int := 0;
    while c < 3
      invariant 0 <= c <= 3
      invariant |writes| == c * targetHeight * targetWidth
      invariant writes == seq(|writes|, i => i)
      invariant Filled(tensor, img, |writes|)
    {
      var y: int := 0;
      while y < targetHeight
        invariant 0 <= y <= targetHeight
        invariant |writes| == c * targetHeight * targetWidth + y * targetWidth
        invariant writes == seq(|writes|, i => i)
        invariant Filled(tensor, img, |writes|)
      {
        writes := FillRow(img, tensor, c, y, writes);
        assert (y + 1) * targetWidth == y * targetWidth + targetWidth;
        y := y + 1;
      }
      assert (c + 1) * targetHeight * targetWidth == c * targetHeight * targetWidth + targetHeight * targetWidth;
      c := c + 1;
    }
    assert tensor[..] == PlanarTensor(img) by {
      assert |writes| == tensor.Length;
    }
  }

  /** The innermost loop of the fill: row `y` of channel `c`, continuing the
      writes made so far, which end just before the row's first cell. */
  method FillRow(img: Image, tensor: array<real>, c: int, y: int, ghost before: seq<int>)
    returns (ghost writes: seq<int>)
    requires img.Valid() && tensor.Length == 3 * img.height * img.width
    requires 0 <= c < 3 && 0 <= y < img.height
    requires |before| == c * img.height * img.width + y * img.width
    requires before == seq(|before|, i => i) && Filled(tensor, img, |before|)
    modifies tensor
    ensures |writes| == |before| + img.width
    ensures writes == seq(|writes|, i => i) && Filled(tensor, img, |writes|)
    ensures KeptFrom(tensor, |writes|, old(tensor[..]))
  {
    var targetHeight: int, targetWidth: int := img.height, img.width;
    writes := before;
    var x: int := 0;
    while x < targetWidth
      invariant 0 <= x <= targetWidth
      invariant |writes| == c * targetHeight * targetWidth + y * targetWidth + x
      invariant writes == seq(|writes|, i => i)
      invariant Filled(tensor, img, |writes|)
      invariant KeptFrom(tensor, |writes|, old(tensor[..]))
    {
      var value := ChannelValue(Pixel(img, x, y), c);
      var index: int := c * targetHeight * targetWidth + y * targetWidth + x;
      assert index < tensor.Length && PlanarTensor(img)[index] == value by {
        TensorCell(img, c, y, x);
      }
      tensor[index] := value;
      writes := writes + [index];
      x := x + 1;
    }
  }

  /** The body of the innermost loop up to the store: channel `c` of the
      pixel scaled to [0, 1], then normalised with that channel's mean and
      std. */
  method ChannelValue(pixel: Rgb, c: int) returns (value: real)
    requires 0 <= c < 3
    ensures value == Normalize(c, Channel(pixel, c))
  {
    if c == 0 {
      value := pixel.red as real / 255.0;
    } else if c == 1 {
      value := pixel.green as real / 255.0;
    } else {
      value := pixel.blue as real / 255.0;
    }
    value := (value - Mean[c]) / Std[c];
  }
}
