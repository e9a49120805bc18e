/** Pixel grids as the ditherer sees them: 8-bit samples, rasters of rows of
    pixels of channels, and exact non-negative ratios for normalised samples. */
module Raster {

  /** An unsigned 8-bit sample (numpy `uint8`). */
  type Byte = x: int | 0 <= x < 256

  /** A grid indexed as [row][column][channel], like a numpy array of shape (H, W, C). */
  type Grid<T> = seq<seq<seq<T>>>

  /** g has `h` rows of `w` pixels of `c` channels each. */
  ghost predicate Shaped<T>(g: Grid<T>, h: nat, w: nat, c: nat) {
    |g| == h
    && (forall y :: 0 <= y < h ==> |g[y]| == w)
    && (forall y, x :: 0 <= y < h && 0 <= x < w ==> |g[y][x]| == c)
  }

  /** An image: its extent, its channel count (1 for mode "L", 3 for "RGB") and its samples.
      A single-channel image stands for the two-dimensional array numpy makes of it. */
  datatype Raster = Raster(width: nat, height: nat, channels: nat, samples: Grid<Byte>)

  ghost predicate WellFormed(r: Raster) {
    r.channels >= 1 && Shaped(r.samples, r.height, r.width, r.channels)
  }

  /** The exact rational number num / den; the float32 sample it replaces. */
  datatype Ratio = Ratio(num: nat, den: nat)

  /** r denotes a number in the closed unit interval. */
  predicate InUnit(r: Ratio) {
    r.den > 0 && r.num <= r.den
  }
}
