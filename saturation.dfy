/** `Inference::extractSaturationFeatures`: the exposure features fed to the
    auxiliary classifier. The picture is reduced to one gray byte per pixel;
    the features are the fractions of pixels at or above each overexposed
    threshold and, when underexposed features are enabled, at or below each
    underexposed threshold, in that fixed order. */
module Saturation {
  import opened Images

  /** A `cv::Mat` of bytes: `rows × cols` pixels in row-major order, each
      holding `channels` bytes (blue, green, red for a three-channel image). */
  datatype Mat = Mat(rows: nat, cols: nat, channels: nat, data: seq<seq<Byte>>) {
    predicate Valid() {
      channels >= 1 && |data| == rows * cols &&
      forall i :: 0 <= i < |data| ==> |data[i]| == channels
    }

    /** `cv::Mat::empty`: no pixels at all. */
    predicate IsEmpty()
      ensures IsEmpty() <==> rows == 0 || cols == 0
    {
      rows * cols == 0
    }
  }

  /** OpenCV's BGR-to-gray weighting of one pixel, given blue, green, red.
      Its coefficients are the library's and are not modelled. */
  type Luma = (Byte, Byte, Byte) -> Byte

  const OverexposedThresholds: seq<int> := [240, 245, 250, 255]
  const UnderexposedThresholds: seq<int> := [0, 5, 10, 15]

  /** Channel counts the extractor accepts: three (converted to gray) or one
      (already gray). */
  predicate SupportedChannels(channels: nat) {
    channels == 3 || channels == 1
  }

  /** The gray picture: `cvtColor(COLOR_BGR2GRAY)` of a three-channel image,
      the image itself when it has one channel. */
  function Gray(m: Mat, luma: Luma): (g: seq<Byte>)
    requires m.Valid() && SupportedChannels(m.channels)
    ensures |g| == m.rows * m.cols
  {
    if m.channels == 3 then
      seq(|m.data|, i requires 0 <= i < |m.data| => luma(m.data[i][0], m.data[i][1], m.data[i][2]))
    else
      seq(|m.data|, i requires 0 <= i < |m.data| => m.data[i][0])
  }

  /** `countNonZero(gray >= t)`. */
  function CountAtLeast(s: seq<Byte>, t: int): (n: nat)
    ensures n <= |s|
  {
    if s == [] then 0 else CountAtLeast(s[..|s| - 1], t) + (if s[|s| - 1] >= t then 1 else 0)
  }

  /** `countNonZero(gray <= t)`. */
  function CountAtMost(s: seq<Byte>, t: int): (n: nat)
    ensures n <= |s|
  {
    if s == [] then 0 else CountAtMost(s[..|s| - 1], t) + (if s[|s| - 1] <= t then 1 else 0)
  }

  /** `static_cast<float>(count) / totalPixels`, over the reals. */
  function Ratio(count: nat, total: nat): (r: real)
    requires total > 0
    ensures r * total as real == count as real
  {
    count as real / total as real
  }

  /** The features the extractor returns: empty for an empty picture or an
      unsupported channel count, otherwise the four overexposed fractions
      followed, when `useUnderexposed` holds, by the four underexposed ones. */
  function SaturationFeatures(m: Mat, useUnderexposed: bool, luma: Luma): (f: seq<real>)
    requires m.Valid()
    ensures f == [] <==> m.IsEmpty() || !SupportedChannels(m.channels)
    ensures f != [] ==> |f| == if useUnderexposed then 8 else 4
  {
    if m.IsEmpty() || !SupportedChannels(m.channels) then []
    else
      var gray, total := Gray(m, luma), m.rows * m.cols;
      OverexposedFractions(gray, total) + if useUnderexposed then UnderexposedFractions(gray, total) else []
  }

  /** The fraction of the picture at or above each overexposed threshold. */
  function OverexposedFractions(gray: seq<Byte>, total: nat): (f: seq<real>)
    requires total > 0
    ensures |f| == |OverexposedThresholds|
  {
    seq(4, i requires 0 <= i < 4 => Ratio(CountAtLeast(gray, OverexposedThresholds[i]), total))
  }

  /** The fraction of the picture at or below each underexposed threshold. */
  function UnderexposedFractions(gray: seq<Byte>, total: nat): (f: seq<real>)
    requires total > 0
    ensures |f| == |UnderexposedThresholds|
  {
    seq(4, i requires 0 <= i < 4 => Ratio(CountAtMost(gray, UnderexposedThresholds[i]), total))
  }

  /** The extractor as the source runs it: guard clauses, the gray
      conversion, then one loop per threshold list appending a fraction per
      threshold. */
  method ExtractSaturationFeatures(m: Mat, useUnderexposed: bool, luma: Luma) returns (features: seq<real>)
    requires m.Valid()
    ensures features == SaturationFeatures(m, useUnderexposed, luma)
  {
    if m.IsEmpty() {
      return [];
    }
    var grayImage: seq<Byte>;
    if m.channels == 3 {
      grayImage := Gray(m, luma);
    } else if m.channels == 1 {
      grayImage := Gray(m, luma);
    } else {
      return [];
    }

    var totalPixels := m.rows * m.cols;
    features := [];
    for i := 0 to |OverexposedThresholds|
      invariant features == OverexposedFractions(grayImage, totalPixels)[..i]
    {
      var count := CountAtLeast(grayImage, OverexposedThresholds[i]);
      features := features + [Ratio(count, totalPixels)];
    }

    if useUnderexposed {
      for i := 0 to |UnderexposedThresholds|
        invariant features == OverexposedFractions(grayImage, totalPixels) + UnderexposedFractions(grayImage, totalPixels)[..i]
      {
        var count := CountAtMost(grayImage, UnderexposedThresholds[i]);
        features := features + [Ratio(count, totalPixels)];
      }
    }
  }

  /** Raising an overexposed threshold never counts more pixels. */
  lemma {:induction false} CountAtLeastAntitone(s: seq<Byte>, t: int, u: int)
    requires t <= u
    ensures CountAtLeast(s, u) <= CountAtLeast(s, t)
  {
    if s != [] {
      CountAtLeastAntitone(s[..|s| - 1], t, u);
    }
  }

  /** Raising an underexposed threshold never counts fewer pixels. */
  lemma {:induction false} CountAtMostMonotone(s: seq<Byte>, t: int, u: int)
    requires t <= u
    ensures CountAtMost(s, t) <= CountAtMost(s, u)
  {
    if s != [] {
      CountAtMostMonotone(s[..|s| - 1], t, u);
    }
  }

  /** Every pixel is either at most `t` or at least `t + 1`: the two counts
      split the picture. */
  lemma {:induction false} CountsPartition(s: seq<Byte>, t: int)
    ensures CountAtLeast(s, t + 1) + CountAtMost(s, t) == |s|
  {
    if s != [] {
      CountsPartition(s[..|s| - 1], t);
    }
  }

  /** A picture whose every gray value is `v` counts all or none of its
      pixels at each threshold. */
  lemma {:induction false} UniformCounts(s: seq<Byte>, v: Byte, t: int)
    requires forall i :: 0 <= i < |s| ==> s[i] == v
    ensures CountAtLeast(s, t) == if v >= t then |s| else 0
    ensures CountAtMost(s, t) == if v <= t then |s| else 0
  {
    if s != [] {
      UniformCounts(s[..|s| - 1], v, t);
    }
  }

  lemma RatioBounds(count: nat, total: nat)
    requires 0 < total && count <= total
    ensures 0.0 <= Ratio(count, total) <= 1.0
  {
    assert count as real <= total as real;
  }

  lemma RatioMonotone(a: nat, b: nat, total: nat)
    requires 0 < total && a <= b
    ensures Ratio(a, total) <= Ratio(b, total)
  {
    assert (b as real - a as real) / total as real >= 0.0;
  }

  /** Every feature is a fraction of the picture, in [0, 1]. */
  lemma FeaturesAreFractions(m: Mat, useUnderexposed: bool, luma: Luma)
    requires m.Valid()
    ensures forall i :: 0 <= i < |SaturationFeatures(m, useUnderexposed, luma)| ==>
              0.0 <= SaturationFeatures(m, useUnderexposed, luma)[i] <= 1.0
  {
    var f := SaturationFeatures(m, useUnderexposed, luma);
    if f != [] {
      var gray, total := Gray(m, luma), m.rows * m.cols;
      forall i | 0 <= i < |f| ensures 0.0 <= f[i] <= 1.0 {
        if i < 4 {
          RatioBounds(CountAtLeast(gray, OverexposedThresholds[i]), total);
        } else {
          RatioBounds(CountAtMost(gray, UnderexposedThresholds[i - 4]), total);
        }
      }
    }
  }

  /** Along the overexposed block the fractions never increase, along the
      underexposed block they never decrease. */
  lemma FeaturesOrdered(m: Mat, useUnderexposed: bool, luma: Luma)
    requires m.Valid()
    ensures var f := SaturationFeatures(m, useUnderexposed, luma);
            (forall i, j :: 0 <= i <= j < 4 && j < |f| ==> f[j] <= f[i]) &&
            (forall i, j :: 4 <= i <= j < |f| ==> f[i] <= f[j])
  {
    var f := SaturationFeatures(m, useUnderexposed, luma);
    forall i, j | 0 <= i <= j < 4 && j < |f| ensures f[j] <= f[i] {
      OverexposedPair(m, useUnderexposed, luma, i, j);
    }
    forall i, j | 4 <= i <= j < |f| ensures f[i] <= f[j] {
      UnderexposedPair(m, useUnderexposed, luma, i, j);
    }
  }

  lemma OverexposedPair(m: Mat, useUnderexposed: bool, luma: Luma, i: int, j: int)
    requires m.Valid() && 0 <= i <= j < 4 && j < |SaturationFeatures(m, useUnderexposed, luma)|
    ensures SaturationFeatures(m, useUnderexposed, luma)[j] <= SaturationFeatures(m, useUnderexposed, luma)[i]
  {
    var gray, total := Gray(m, luma), m.rows * m.cols;
    var t, u := OverexposedThresholds[i], OverexposedThresholds[j];
    CountAtLeastAntitone(gray, t, u);
    RatioMonotone(CountAtLeast(gray, u), CountAtLeast(gray, t), total);
  }

  lemma UnderexposedPair(m: Mat, useUnderexposed: bool, luma: Luma, i: int, j: int)
    requires m.Valid() && 4 <= i <= j < |SaturationFeatures(m, useUnderexposed, luma)|
    ensures SaturationFeatures(m, useUnderexposed, luma)[i] <= SaturationFeatures(m, useUnderexposed, luma)[j]
  {
    var gray, total := Gray(m, luma), m.rows * m.cols;
    var t, u := UnderexposedThresholds[i - 4], UnderexposedThresholds[j - 4];
    CountAtMostMonotone(gray, t, u);
    RatioMonotone(CountAtMost(gray, t), CountAtMost(gray, u), total);
  }

  /** Features of a non-empty picture whose gray values are all `v`: each
      overexposed feature is 1 when `v` reaches its threshold and 0
      otherwise, each underexposed feature 1 when `v` is within its
      threshold and 0 otherwise. */
  lemma UniformFeatures(m: Mat, useUnderexposed: bool, luma: Luma, v: Byte)
    requires m.Valid() && !m.IsEmpty() && SupportedChannels(m.channels)
    requires forall i :: 0 <= i < |Gray(m, luma)| ==> Gray(m, luma)[i] == v
    ensures var f := SaturationFeatures(m, useUnderexposed, luma);
            (forall i :: 0 <= i < 4 ==> f[i] == if v >= OverexposedThresholds[i] then 1.0 else 0.0) &&
            (forall i :: 4 <= i < |f| ==> f[i] == if v <= UnderexposedThresholds[i - 4] then 1.0 else 0.0)
  {
    var f := SaturationFeatures(m, useUnderexposed, luma);
    var gray, total := Gray(m, luma), m.rows * m.cols;
    assert |gray| == total;
    forall i | 0 <= i < 4 ensures f[i] == if v >= OverexposedThresholds[i] then 1.0 else 0.0 {
      var t := OverexposedThresholds[i];
      UniformCounts(gray, v, t);
      assert f[i] == Ratio(CountAtLeast(gray, t), total);
      RatioOfAllOrNone(CountAtLeast(gray, t), total);
    }
    forall i | 4 <= i < |f| ensures f[i] == if v <= UnderexposedThresholds[i - 4] then 1.0 else 0.0 {
      var t := UnderexposedThresholds[i - 4];
      UniformCounts(gray, v, t);
      assert f[i] == Ratio(CountAtMost(gray, t), total);
      RatioOfAllOrNone(CountAtMost(gray, t), total);
    }
  }

  lemma RatioOfAllOrNone(count: nat, total: nat)
    requires 0 < total && (count == 0 || count == total)
    ensures Ratio(count, total) == if count == 0 then 0.0 else 1.0
  {
    if count == total {
      assert count as real == total as real;
    }
  }

  /** An all-white picture is overexposed at every threshold and underexposed
      at none; an all-black one the reverse; a mid-gray (128) one neither. */
  lemma WhiteBlackGrayFeatures(m: Mat, useUnderexposed: bool, luma: Luma, v: Byte)
    requires m.Valid() && !m.IsEmpty() && SupportedChannels(m.channels)
    requires v == 255 || v == 0 || v == 128
    requires forall i :: 0 <= i < |Gray(m, luma)| ==> Gray(m, luma)[i] == v
    ensures var f := SaturationFeatures(m, useUnderexposed, luma);
            f[..4] == (if v == 255 then [1.0, 1.0, 1.0, 1.0] else [0.0, 0.0, 0.0, 0.0]) &&
            (useUnderexposed ==> f[4..] == if v == 0 then [1.0, 1.0, 1.0, 1.0] else [0.0, 0.0, 0.0, 0.0])
  {
    UniformFeatures(m, useUnderexposed, luma, v);
    var f := SaturationFeatures(m, useUnderexposed, luma);
    assert f[..4] == [f[0], f[1], f[2], f[3]];
    if useUnderexposed {
      assert |f| == 8 && f[4..] == [f[4], f[5], f[6], f[7]];
    }
  }
}
