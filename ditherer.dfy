/** `apply_bayer_dithering`: shrink the image, normalise its samples, reduce its
    channels to grey or broadcast them to colour, tile the selected Bayer matrix over
    the extent, quantise every sample against its threshold and rescale to bytes. */
module Ditherer {
  import opened Raster
  import opened Arith
  import opened Bayer
  import opened Quantize

  // ---------------------------------------------------------------------------
  // Step 1: the downscaled extent

  /** The extent the image is resized to: each side divided by the scale factor and
      rounded down. */
  function DownscaledExtent(width: nat, height: nat, scaleFactor: nat): (nat, nat)
    requires scaleFactor >= 1
  {
    (width / scaleFactor, height / scaleFactor)
  }

  /** Each downscaled side is the largest count of whole scale-factor blocks that fit. */
  lemma DownscaledExtentIsFloor(width: nat, height: nat, scaleFactor: nat)
    requires scaleFactor >= 1
    ensures var e := DownscaledExtent(width, height, scaleFactor);
            e.0 * scaleFactor <= width < (e.0 + 1) * scaleFactor
            && e.1 * scaleFactor <= height < (e.1 + 1) * scaleFactor
  {
    DivFloor(width, scaleFactor);
    DivFloor(height, scaleFactor);
  }

  /** r is a well-formed raster of the given extent and channel count. */
  ghost predicate HasExtent(r: Raster, width: nat, height: nat, channels: nat) {
    WellFormed(r) && r.width == width && r.height == height && r.channels == channels
  }

  // ---------------------------------------------------------------------------
  // Step 2: normalisation

  /** Every sample of `data` is some p/255 with p a byte. */
  ghost predicate Normalized(data: Grid<Ratio>, h: nat, w: nat, c: nat) {
    Shaped(data, h, w, c)
    && forall y, x, k :: 0 <= y < h && 0 <= x < w && 0 <= k < c ==>
         data[y][x][k].den == 255 && data[y][x][k].num <= 255
  }

  /** `np.array(image) / 255.0`: every sample as the ratio p/255. */
  function Normalize(img: Raster): (data: Grid<Ratio>)
    requires WellFormed(img)
    ensures Normalized(data, img.height, img.width, img.channels)
  {
    seq(img.height, y requires 0 <= y < img.height =>
      seq(img.width, x requires 0 <= x < img.width =>
        seq(img.channels, c requires 0 <= c < img.channels => Ratio(img.samples[y][x][c], 255))))
  }

  // ---------------------------------------------------------------------------
  // Step 3: channel reduction or broadcast

  function SumNum(px: seq<Ratio>): nat {
    if px == [] then 0 else px[0].num + SumNum(px[1..])
  }

  function SumBytes(px: seq<Byte>): nat {
    if px == [] then 0 else px[0] + SumBytes(px[1..])
  }

  lemma {:induction false} SumNumBelow(px: seq<Ratio>, d: nat)
    requires forall i :: 0 <= i < |px| ==> px[i].num <= d
    ensures SumNum(px) <= |px| * d
  {
    if px != [] {
      SumNumBelow(px[1..], d);
    }
  }

  /** The numerators of normalised bytes add up to the bytes' sum. */
  lemma {:induction false} SumNumOfBytes(px: seq<Byte>, rs: seq<Ratio>)
    requires |rs| == |px| && forall i :: 0 <= i < |px| ==> rs[i].num == px[i]
    ensures SumNum(rs) == SumBytes(px)
  {
    if px != [] {
      SumNumOfBytes(px[1..], rs[1..]);
    }
  }

  /** A pixel whose channels all hold b sums to |px|·b. */
  lemma {:induction false} SumOfConstant(px: seq<Byte>, b: Byte)
    requires forall i :: 0 <= i < |px| ==> px[i] == b
    ensures SumBytes(px) == |px| * b
  {
    if px != [] {
      SumOfConstant(px[1..], b);
    }
  }

  /** `np.mean` over the channels of one pixel of normalised samples. */
  function Mean(px: seq<Ratio>): (r: Ratio)
    requires |px| >= 1 && forall i :: 0 <= i < |px| ==> px[i].den == 255 && px[i].num <= 255
    ensures InUnit(r) && r.den == 255 * |px|
  {
    SumNumBelow(px, 255);
    Ratio(SumNum(px), 255 * |px|)
  }

  /** Colour mode broadcasts a single channel to three identical ones and keeps three
      channels as they are; grey mode keeps a single channel and replaces several by
      their mean. */
  function ReduceChannels(data: Grid<Ratio>, h: nat, w: nat, channels: nat, color: bool): (r: Grid<Ratio>)
    requires Normalized(data, h, w, channels) && channels >= 1
    requires color ==> channels == 1 || channels == 3
    ensures Shaped(r, h, w, if color then 3 else 1)
    ensures forall y, x, k :: 0 <= y < h && 0 <= x < w && 0 <= k < |r[y][x]| ==> InUnit(r[y][x][k])
  {
    if color then
      if channels == 1 then
        seq(h, y requires 0 <= y < h => seq(w, x requires 0 <= x < w =>
          [data[y][x][0], data[y][x][0], data[y][x][0]]))
      else
        data
    else
      if channels == 1 then
        data
      else
        seq(h, y requires 0 <= y < h => seq(w, x requires 0 <= x < w => [Mean(data[y][x])]))
  }

  // ---------------------------------------------------------------------------
  // Steps 5 and 6: quantisation against the tiled thresholds, rescale to bytes

  /** Every sample dithered against the threshold rank at the same position. */
  function DitherGrid(data: Grid<Ratio>, thr: Grid<nat>, s2: nat, steps: nat, h: nat, w: nat, c: nat): (out: Grid<Byte>)
    requires Shaped(data, h, w, c) && Shaped(thr, h, w, c) && s2 >= 1 && steps >= 2
    requires forall y, x, k :: 0 <= y < h && 0 <= x < w && 0 <= k < c ==> data[y][x][k].den > 0
    ensures Shaped(out, h, w, c)
  {
    seq(h, y requires 0 <= y < h => seq(w, x requires 0 <= x < w =>
      seq(c, k requires 0 <= k < c => DitherSample(data[y][x][k], thr[y][x][k], s2, steps))))
  }

  // ---------------------------------------------------------------------------
  // The whole function

  /** Steps 2 to 6 on an image that already has the downscaled extent. */
  function DitherResized(small: Raster, matrixSize: int, color: bool, steps: int): (out: Raster)
    requires WellFormed(small) && steps >= 2
    requires color ==> small.channels == 1 || small.channels == 3
    ensures HasExtent(out, small.width, small.height, if color then 3 else 1)
  {
    var h, w := small.height, small.width;
    var data := Normalize(small);
    var m := SelectMatrix(matrixSize);
    var reduced := ReduceChannels(data, h, w, small.channels, color);
    var thr := Threshold(m, h, w, color);
    var oc := if color then 3 else 1;
    Raster(w, h, oc, DitherGrid(reduced, thr, |m| * |m|, steps, h, w, oc))
  }

  /** `apply_bayer_dithering(image, scale_factor, matrix_size, color, steps)`; the bilinear
      resampler is the parameter `resize`, of which only the extent of its result is known. */
  function ApplyBayerDithering(image: Raster, resize: (Raster, nat, nat) -> Raster,
                               scaleFactor: int, matrixSize: int, color: bool, steps: int): (out: Raster)
    requires WellFormed(image) && scaleFactor >= 1 && steps >= 2
    requires color ==> image.channels == 1 || image.channels == 3
    requires HasExtent(resize(image, image.width / scaleFactor, image.height / scaleFactor),
                       image.width / scaleFactor, image.height / scaleFactor, image.channels)
    ensures WellFormed(out)
    ensures (out.width, out.height) == DownscaledExtent(image.width, image.height, scaleFactor)
    ensures scaleFactor == 1 ==> out.width == image.width && out.height == image.height
    ensures out.channels == if color then 3 else 1
  {
    var extent := DownscaledExtent(image.width, image.height, scaleFactor);
    var small := resize(image, extent.0, extent.1);
    DitherResized(small, matrixSize, color, steps)
  }

  // ---------------------------------------------------------------------------
  // Properties of the output, sample by sample

  /** The value of channel k at (y, x) after step 3, straight from the input bytes:
      the channel itself (the only channel when a grey image is broadcast to colour),
      or in grey mode the mean of the pixel's channels. */
  function ReducedSample(small: Raster, color: bool, y: nat, x: nat, k: nat): (v: Ratio)
    requires WellFormed(small) && y < small.height && x < small.width
    requires k < (if color then 3 else 1)
    requires color ==> small.channels == 1 || small.channels == 3
    ensures InUnit(v)
  {
    var px := small.samples[y][x];
    if color then
      Ratio(px[if small.channels == 1 then 0 else k], 255)
    else
      SumNumBelow(seq(|px|, i requires 0 <= i < |px| => Ratio(px[i], 255)), 255);
      SumNumOfBytes(px, seq(|px|, i requires 0 <= i < |px| => Ratio(px[i], 255)));
      Ratio(SumBytes(px), 255 * |px|)
  }

  /** Step 3 at one position agrees with the reference value taken from the bytes. */
  lemma ReducedAt(small: Raster, color: bool, y: nat, x: nat, k: nat)
    requires WellFormed(small)
    requires color ==> small.channels == 1 || small.channels == 3
    requires y < small.height && x < small.width && k < (if color then 3 else 1)
    ensures ReduceChannels(Normalize(small), small.height, small.width, small.channels, color)[y][x][k]
            == ReducedSample(small, color, y, x, k)
  {
    var px := small.samples[y][x];
    if !color {
      assert SumBytes(px) == px[0] + SumBytes(px[1..]);
      if small.channels == 1 {
        assert px[1..] == [];
      } else {
        SumNumOfBytes(px, Normalize(small)[y][x]);
      }
    }
  }

  /** Every output sample is the input sample's reduced value dithered against the
      matrix rank at (y mod S, x mod S), S being the side of the selected matrix. */
  lemma DitherAt(small: Raster, matrixSize: int, color: bool, steps: int, y: nat, x: nat, k: nat)
    requires WellFormed(small) && steps >= 2
    requires color ==> small.channels == 1 || small.channels == 3
    requires y < small.height && x < small.width && k < (if color then 3 else 1)
    ensures var m := SelectMatrix(matrixSize);
            DitherResized(small, matrixSize, color, steps).samples[y][x][k]
            == DitherSample(ReducedSample(small, color, y, x, k), m[y % |m|][x % |m|], |m| * |m|, steps)
  {
    var m := SelectMatrix(matrixSize);
    ReducedAt(small, color, y, x, k);
    assert Threshold(m, small.height, small.width, color)[y][x][k] == m[y % |m|][x % |m|];
  }

  /** The whole function, sample by sample: the resized image's value at (y, x) after
      step 3, dithered against the tiled rank at the same position. */
  lemma ApplyDitherAt(image: Raster, resize: (Raster, nat, nat) -> Raster,
                      scaleFactor: int, matrixSize: int, color: bool, steps: int, y: nat, x: nat, k: nat)
    requires WellFormed(image) && scaleFactor >= 1 && steps >= 2
    requires color ==> image.channels == 1 || image.channels == 3
    requires HasExtent(resize(image, image.width / scaleFactor, image.height / scaleFactor),
                       image.width / scaleFactor, image.height / scaleFactor, image.channels)
    requires y < image.height / scaleFactor && x < image.width / scaleFactor
    requires k < (if color then 3 else 1)
    ensures var small := resize(image, image.width / scaleFactor, image.height / scaleFactor);
            var m := SelectMatrix(matrixSize);
            ApplyBayerDithering(image, resize, scaleFactor, matrixSize, color, steps).samples[y][x][k]
            == DitherSample(ReducedSample(small, color, y, x, k), m[y % |m|][x % |m|], |m| * |m|, steps)
  {
    var small := resize(image, image.width / scaleFactor, image.height / scaleFactor);
    DitherAt(small, matrixSize, color, steps, y, x, k);
  }

  /** A grey image dithered in colour mode has three identical channels. */
  lemma BroadcastChannelsAgree(small: Raster, matrixSize: int, steps: int, y: nat, x: nat)
    requires WellFormed(small) && small.channels == 1 && steps >= 2
    requires y < small.height && x < small.width
    ensures var px := DitherResized(small, matrixSize, true, steps).samples[y][x];
            px[0] == px[1] && px[1] == px[2]
  {
    DitherAt(small, matrixSize, true, steps, y, x, 0);
    DitherAt(small, matrixSize, true, steps, y, x, 1);
    DitherAt(small, matrixSize, true, steps, y, x, 2);
  }

  /** In grey mode a pixel whose channels all hold p has the grey value p/255. */
  lemma GreyOfUniformPixel(small: Raster, y: nat, x: nat, p: Byte)
    requires WellFormed(small) && y < small.height && x < small.width
    requires forall i :: 0 <= i < small.channels ==> small.samples[y][x][i] == p
    ensures ReducedSample(small, false, y, x, 0).num * 255 == p * ReducedSample(small, false, y, x, 0).den
  {
    SumOfConstant(small.samples[y][x], p);
  }

  /** A black pixel stays black and a white pixel stays white, whatever the threshold; in
      colour mode this holds channel by channel. */
  lemma EndpointsPreserved(small: Raster, matrixSize: int, color: bool, steps: int, y: nat, x: nat, k: nat)
    requires WellFormed(small) && steps >= 2
    requires color ==> small.channels == 1 || small.channels == 3
    requires y < small.height && x < small.width && k < (if color then 3 else 1)
    ensures (forall i :: 0 <= i < small.channels ==> small.samples[y][x][i] == 0) ==>
              DitherResized(small, matrixSize, color, steps).samples[y][x][k] == 0
    ensures (forall i :: 0 <= i < small.channels ==> small.samples[y][x][i] == 255) ==>
              DitherResized(small, matrixSize, color, steps).samples[y][x][k] == 255
    ensures color && small.samples[y][x][if small.channels == 1 then 0 else k] == 0 ==>
              DitherResized(small, matrixSize, color, steps).samples[y][x][k] == 0
    ensures color && small.samples[y][x][if small.channels == 1 then 0 else k] == 255 ==>
              DitherResized(small, matrixSize, color, steps).samples[y][x][k] == 255
  {
    var m := SelectMatrix(matrixSize);
    var s := |m|;
    SelectedIsPermutation(matrixSize);
    var t := m[y % s][x % s];
    assert t < s * s;
    var v := ReducedSample(small, color, y, x, k);
    DitherAt(small, matrixSize, color, steps, y, x, k);
    var px := small.samples[y][x];
    if forall i :: 0 <= i < small.channels ==> px[i] == 0 {
      SumOfConstant(px, 0);
      BlackStaysBlack(v, t, s * s, steps);
    }
    if forall i :: 0 <= i < small.channels ==> px[i] == 255 {
      SumOfConstant(px, 255);
      WhiteStaysWhite(v, t, s * s, steps);
    }
    if color {
      var b := px[if small.channels == 1 then 0 else k];
      if b == 0 {
        BlackStaysBlack(v, t, s * s, steps);
      } else if b == 255 {
        WhiteStaysWhite(v, t, s * s, steps);
      }
    }
  }

  /** With two steps every output sample is 0 or 255, and it is 255 exactly when the
      sample's value plus its threshold reaches 1. */
  lemma TwoStepOutput(small: Raster, matrixSize: int, color: bool, y: nat, x: nat, k: nat)
    requires WellFormed(small)
    requires color ==> small.channels == 1 || small.channels == 3
    requires y < small.height && x < small.width && k < (if color then 3 else 1)
    ensures var b := DitherResized(small, matrixSize, color, 2).samples[y][x][k];
            var m := SelectMatrix(matrixSize);
            var v := ReducedSample(small, color, y, x, k);
            (b == 0 || b == 255)
            && (b == 255 <==> v.num * (|m| * |m|) + v.den * m[y % |m|][x % |m|] >= v.den * (|m| * |m|))
  {
    var m := SelectMatrix(matrixSize);
    var s := |m|;
    SelectedIsPermutation(matrixSize);
    assert m[y % s][x % s] < s * s;
    DitherAt(small, matrixSize, color, 2, y, x, k);
    TwoStepSample(ReducedSample(small, color, y, x, k), m[y % s][x % s], s * s);
  }

  /** A grey image at two steps with the 2×2 matrix: wherever the grey value lies in
      [1/2, 3/4), whatever the channel count, the output is the checkerboard 0, 255 / 255, 0
      repeated over the image. */
  lemma UpperHalfCheckerboard(small: Raster, y: nat, x: nat)
    requires WellFormed(small) && y < small.height && x < small.width
    requires var v := ReducedSample(small, false, y, x, 0);
             v.den <= 2 * v.num && 4 * v.num < 3 * v.den
    ensures DitherResized(small, 2, false, 2).samples[y][x][0] == if y % 2 == x % 2 then 0 else 255
  {
    DitherAt(small, 2, false, 2, y, x, 0);
    UpperHalfTwoStep(ReducedSample(small, false, y, x, 0), Bayer2[y % 2][x % 2]);
    Bayer2Diagonal(y, x);
  }

  /** The single-channel case: every byte in 128 .. 191 (just above one half). */
  lemma MidGreyCheckerboard(small: Raster, y: nat, x: nat)
    requires WellFormed(small) && small.channels == 1
    requires y < small.height && x < small.width
    requires 128 <= small.samples[y][x][0] <= 191
    ensures DitherResized(small, 2, false, 2).samples[y][x][0] == if y % 2 == x % 2 then 0 else 255
  {
    SingleChannelGrey(small, y, x);
    UpperHalfCheckerboard(small, y, x);
  }

  /** Exactly one half: a grey-with-alpha pixel (255, 0) has the mean 255/510 and takes
      its place in the same checkerboard. */
  lemma ExactHalfCheckerboard(small: Raster, y: nat, x: nat)
    requires WellFormed(small) && small.channels == 2
    requires y < small.height && x < small.width
    requires small.samples[y][x] == [255, 0]
    ensures ReducedSample(small, false, y, x, 0) == Ratio(255, 510)
    ensures DitherResized(small, 2, false, 2).samples[y][x][0] == if y % 2 == x % 2 then 0 else 255
  {
    var px := small.samples[y][x];
    assert px[1..][1..] == [];
    assert SumBytes(px) == 255 + SumBytes(px[1..]);
    assert SumBytes(px[1..]) == 0 + SumBytes(px[1..][1..]);
    UpperHalfCheckerboard(small, y, x);
  }

  /** In grey mode the value of a single-channel pixel p is p/255. */
  lemma SingleChannelGrey(small: Raster, y: nat, x: nat)
    requires WellFormed(small) && small.channels == 1
    requires y < small.height && x < small.width
    ensures ReducedSample(small, false, y, x, 0) == Ratio(small.samples[y][x][0], 255)
  {
    var px := small.samples[y][x];
    assert px[1..] == [];
    assert SumBytes(px) == px[0] + SumBytes(px[1..]);
  }

  /** Every output sample is one of the `steps` rescaled levels. */
  lemma OutputIsLevel(small: Raster, matrixSize: int, color: bool, steps: int, y: nat, x: nat, k: nat)
    requires WellFormed(small) && steps >= 2
    requires color ==> small.channels == 1 || small.channels == 3
    requires y < small.height && x < small.width && k < (if color then 3 else 1)
    ensures DitherResized(small, matrixSize, color, steps).samples[y][x][k] in Levels(steps, steps)
  {
    var m := SelectMatrix(matrixSize);
    DitherAt(small, matrixSize, color, steps, y, x, k);
    SampleIsLevel(ReducedSample(small, color, y, x, k), m[y % |m|][x % |m|], |m| * |m|, steps);
  }

  /** The samples of channel k of an image. */
  ghost function ChannelValues(r: Raster, k: nat): set<Byte>
    requires WellFormed(r) && k < r.channels
  {
    set y, x | 0 <= y < r.height && 0 <= x < r.width :: r.samples[y][x][k]
  }

  /** Each channel of the output holds at most `steps` distinct values, all rescaled levels. */
  lemma AtMostStepsValues(small: Raster, matrixSize: int, color: bool, steps: int, k: nat)
    requires WellFormed(small) && steps >= 2
    requires color ==> small.channels == 1 || small.channels == 3
    requires k < (if color then 3 else 1)
    ensures ChannelValues(DitherResized(small, matrixSize, color, steps), k) <= Levels(steps, steps)
    ensures |ChannelValues(DitherResized(small, matrixSize, color, steps), k)| <= steps
  {
    var out := DitherResized(small, matrixSize, color, steps);
    forall b | b in ChannelValues(out, k)
      ensures b in Levels(steps, steps)
    {
      var y, x :| 0 <= y < out.height && 0 <= x < out.width && out.samples[y][x][k] == b;
      OutputIsLevel(small, matrixSize, color, steps, y, x, k);
    }
    LevelsCount(steps, steps);
    SubsetCard(ChannelValues(out, k), Levels(steps, steps));
  }

  /** A uniform 2×2 grey image of byte 128 with the 2×2 matrix. */
  ghost predicate UniformMidGrey(small: Raster) {
    WellFormed(small) && small.channels == 1 && small.width == 2 && small.height == 2
    && forall y, x :: 0 <= y < 2 && 0 <= x < 2 ==> small.samples[y][x][0] == 128
  }

  /** At two steps the uniform image of byte 128 dithers to the two values 0 and 255. */
  lemma MidGreyTwoValues(small: Raster)
    requires UniformMidGrey(small)
    ensures ChannelValues(DitherResized(small, 2, false, 2), 0) == {0, 255}
  {
    var out := DitherResized(small, 2, false, 2);
    forall y, x | 0 <= y < 2 && 0 <= x < 2
      ensures out.samples[y][x][0] == if y % 2 == x % 2 then 0 else 255
    {
      MidGreyCheckerboard(small, y, x);
    }
    assert out.samples[0][0][0] == 0 && out.samples[0][1][0] == 255;
  }

  /** At three steps the same image dithers to the single value 127. */
  lemma MidGreyOneValue(small: Raster)
    requires UniformMidGrey(small)
    ensures ChannelValues(DitherResized(small, 2, false, 3), 0) == {127}
  {
    var out := DitherResized(small, 2, false, 3);
    forall y, x | 0 <= y < 2 && 0 <= x < 2
      ensures out.samples[y][x][0] == 127
    {
      SingleChannelGrey(small, y, x);
      DitherAt(small, 2, false, 3, y, x, 0);
      MidGreyThreeStep(Bayer2[y % 2][x % 2]);
    }
    assert out.samples[0][0][0] == 127;
  }

  /** Raising the step count does not always keep the number of distinct output values:
      the uniform image of byte 128 has two output values at two steps and one at three. */
  lemma StepsNotMonotone(small: Raster)
    requires UniformMidGrey(small)
    ensures |ChannelValues(DitherResized(small, 2, false, 3), 0)|
            < |ChannelValues(DitherResized(small, 2, false, 2), 0)|
  {
    MidGreyTwoValues(small);
    MidGreyOneValue(small);
  }

  lemma SubsetCard<T>(a: set<T>, b: set<T>)
    requires a <= b
    ensures |a| <= |b|
  {
    assert b == a + (b - a);
  }
}
