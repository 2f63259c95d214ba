/** Pictures as `imageToTensor` sees them after conversion to
    `QImage::Format_RGB888`: a width, a height and the pixels in scanline
    order (row 0 left to right, then row 1, ...), one RGB byte triple each. */
module Images {
  import Arith

  type Byte = x: int | 0 <= x < 256

  datatype Rgb = Rgb(red: Byte, green: Byte, blue: Byte)

  datatype Image = Image(width: nat, height: nat, pixels: seq<Rgb>) {
    /** One pixel per grid position. */
    predicate Valid() {
      |pixels| == width * height
    }
  }

  /** `QImage::pixel(x, y)`: column `x` of row `y`. */
  function Pixel(img: Image, x: int, y: int): (p: Rgb)
    requires img.Valid() && 0 <= x < img.width && 0 <= y < img.height
    ensures p in img.pixels
  {
    Arith.RowMajorInRange(y, x, img.width, img.height);
    img.pixels[y * img.width + x]
  }

  /** Row and column of the `j`-th pixel of a picture `w` pixels wide that
      has `h` rows. */
  lemma Unflatten(j: int, w: nat, h: nat)
    requires 0 <= j < w * h
    ensures w > 0 && 0 <= j / w < h && 0 <= j % w < w
    ensures (j / w) * w + j % w == j
  {
    assert j == w * (j / w) + j % w;
    if j / w >= h {
      Arith.MulMonotone(h, j / w, w);
      assert false;
    }
  }

  /** Column and row of position `y * w + x` are `x` and `y`. */
  lemma Flatten(x: int, y: int, w: int)
    requires 0 <= x < w
    ensures (y * w + x) / w == y && (y * w + x) % w == x
  {
    Arith.DivModOfSum(y, w, x);
  }

  /** `QImage::copy(x0, y0, w, h)` for a window that lies inside the picture:
      pixel `(x, y)` of the copy is pixel `(x0 + x, y0 + y)` of the source. */
  function Crop(img: Image, x0: int, y0: int, w: nat, h: nat): (r: Image)
    requires img.Valid()
    requires 0 <= x0 && x0 + w <= img.width && 0 <= y0 && y0 + h <= img.height
    ensures r.Valid() && r.width == w && r.height == h
    ensures forall x, y :: 0 <= x < w && 0 <= y < h ==> Pixel(r, x, y) == Pixel(img, x0 + x, y0 + y)
  {
    var r := Image(w, h, seq(w * h, j requires 0 <= j < w * h =>
                               Unflatten(j, w, h);
                               Pixel(img, x0 + j % w, y0 + j / w)));
    forall x, y | 0 <= x < w && 0 <= y < h
      ensures Pixel(r, x, y) == Pixel(img, x0 + x, y0 + y)
    {
      Arith.RowMajorInRange(y, x, w, h);
      Flatten(x, y, w);
    }
    r
  }
}
