# Ordered (Bayer) dithering, modelled in Dafny

This project models `apply_bayer_dithering`, the image transformation at the heart of
the Ditherer tool. It runs in six steps:

1. Shrink the image to `(width // scale_factor, height // scale_factor)`.
2. Normalise every 8-bit sample to `[0, 1]`.
3. Either reduce the channels to their mean (grey mode), or broadcast a grey image to
   three identical channels (colour mode).
4. Select the 2×2, 4×4 or 8×8 Bayer matrix, falling back to 2×2 for any other size. Tile
   it over the image with `np.tile` and crop it to the image's extent.
5. Quantise every sample `v` against its threshold `t` to the level
   `floor(v·(steps-1) + t)`, then clip it.
6. Rescale the level to a byte, truncating.

The model is a set of pure functions over sequences, because the routine is one too:
NumPy whole-array expressions that rebind local names and return a new image.

Arithmetic is exact:
- A sample byte `p` is the ratio `p/255`.
- A grey value is the channel sum over `255·C`.
- A rank `k` of an S×S matrix is the threshold `k/S²`.
- The level is `floor((num·(steps-1)·S² + den·k) / (den·S²))`.
- The byte is `floor(c·255 / (steps-1))`.

The modules are:
- `Raster`: bytes, grids, rasters and ratios.
- `Arith`: small multiplication and division facts.
- `Bayer`: the matrices, their selection, their permutation proofs, and tiling and cropping.
- `Quantize`: level, clip and rescale of one sample.
- `Ditherer`: the whole function, and what it guarantees sample by sample.

## Model

| member | source | states |
|---|---|---|
| Ditherer.DownscaledExtent | Ditherer.py:7-9 | the new extent `(width // f, height // f)`; its meaning as a floor quotient is stated by DownscaledExtentIsFloor |
| Ditherer.DownscaledExtentIsFloor | Ditherer.py:7-10 | each new side is the floor quotient of the old side by the scale factor: `e·f <= side < (e+1)·f` |
| Ditherer.ApplyBayerDithering | Ditherer.py:4-71 | the result is a well-formed raster whose extent is the downscaled extent (unchanged when the scale factor is 1), with 3 channels in colour mode and 1 otherwise |
| Ditherer.ApplyDitherAt | Ditherer.py:4-71 | every output sample equals the resized image's reduced value at that position, dithered against the rank `m[y mod S][x mod S]` of the selected matrix with `steps` levels |
| Ditherer.DitherResized | Ditherer.py:13-71 | steps 2 to 6 keep the extent of the resized image and give 3 channels in colour mode, 1 otherwise |
| Ditherer.DitherGrid | Ditherer.py:59-67 | dithering every sample against the threshold at the same position keeps the grid's shape; DitherAt states each sample's value |
| Ditherer.DitherAt | Ditherer.py:37-67 | each output sample is the reduced input value at (y, x) quantised against the tiled rank at (y mod S, x mod S) |
| Ditherer.Normalize | Ditherer.py:13 | the normalised grid has the image's shape and every entry is some byte over 255; ReducedAt states which byte each entry comes from |
| Ditherer.Mean | Ditherer.py:51 | the mean of a pixel's normalised channels lies in [0, 1], with denominator 255·C; ReducedAt states that its numerator is the pixel's byte sum |
| Ditherer.ReduceChannels | Ditherer.py:41-51 | after step 3 the grid has 3 channels in colour mode and 1 in grey mode, and every value lies in [0, 1] |
| Ditherer.ReducedSample | Ditherer.py:41-51 | the reference value after step 3, taken straight from the input bytes, lies in [0, 1] |
| Ditherer.ReducedAt | Ditherer.py:41-51 | step 3 on the normalised grid yields exactly the reference value: the channel itself, the broadcast single channel, or the channel sum over 255·C |
| Ditherer.SingleChannelGrey | Ditherer.py:50-51 | in grey mode a single-channel image is left as it is: its value is p/255 |
| Ditherer.BroadcastChannelsAgree | Ditherer.py:42-43 | a single-channel image dithered in colour mode has three identical output channels |
| Ditherer.GreyOfUniformPixel | Ditherer.py:50-51 | the grey value of a pixel whose channels all hold p is p/255 |
| Ditherer.EndpointsPreserved | Ditherer.py:60-67 | an all-0 pixel gives 0 and an all-255 pixel gives 255, whatever the matrix, mode and step count; in colour mode each channel holding 0 gives 0 and each channel holding 255 gives 255, whatever the other channels hold |
| Ditherer.TwoStepOutput | Ditherer.py:60-67 | at two steps every output sample is 0 or 255, and it is 255 exactly when `v + k/S² >= 1` |
| Ditherer.UpperHalfCheckerboard | Ditherer.py:17-18 | in grey mode at two steps with the 2×2 matrix, any pixel whose grey value lies in [1/2, 3/4), for any channel count, gives 0 where y ≡ x (mod 2) and 255 elsewhere: the tile `[[0,255],[255,0]]` |
| Ditherer.MidGreyCheckerboard | Ditherer.py:17-18 | the single-channel case: a grey byte of 128..191 takes its place in the same checkerboard |
| Ditherer.ExactHalfCheckerboard | Ditherer.py:50-51 | a grey-with-alpha pixel (255, 0) has the mean exactly 1/2 and takes its place in the same checkerboard |
| Ditherer.OutputIsLevel | Ditherer.py:60-67 | every output sample is one of the `steps` rescaled levels |
| Ditherer.MidGreyTwoValues | Ditherer.py:60-67 | a uniform 2×2 grey image of byte 128 with the 2×2 matrix has exactly the output values 0 and 255 at two steps |
| Ditherer.MidGreyOneValue | Ditherer.py:60-67 | the same image has the single output value 127 at three steps |
| Ditherer.StepsNotMonotone | Ditherer.py:60-67 | raising `steps` from 2 to 3 can lower the number of distinct output values, from 2 to 1 |
| Ditherer.AtMostStepsValues | Ditherer.py:60-67 | each output channel holds only rescaled levels, and at most `steps` distinct values |
| Bayer.SelectMatrix | Ditherer.py:16-34 | the selected matrix is square, has side 4 or 8 when asked for, and is the 2×2 matrix for every other size |
| Bayer.SelectedIsPermutation | Ditherer.py:16-34 | whatever the size asked for, the selected S×S matrix holds each rank 0..S²-1 exactly once, so every threshold lies in [0, 1) |
| Bayer.Bayer2IsPermutation | Ditherer.py:17-18 | the 2×2 matrix is a permutation of 0..3 |
| Bayer.Bayer4IsPermutation | Ditherer.py:19-22 | the 4×4 matrix is a permutation of 0..15 |
| Bayer.Bayer8IsPermutation | Ditherer.py:23-30 | the 8×8 matrix is a permutation of 0..63 |
| Bayer.CompositionIsPermutation | Ditherer.py:19-30 | composing the 2×2 pattern with an S×S rank permutation gives a 2S×2S rank permutation; the 4×4 matrix is the 2×2 composed with itself, and the 8×8 is the transpose of the 2×2 composed with the 4×4 |
| Bayer.Bayer8Transposed | Ditherer.py:23-30 | the transpose of the 8×8 matrix is the composition of the 2×2 and 4×4 matrices |
| Bayer.Bayer2Diagonal | Ditherer.py:17-18 | the ranks of the 2×2 matrix below one half sit where y ≡ x (mod 2) |
| Bayer.Stack | Ditherer.py:38 | `np.stack([m] * 3, axis=-1)`: each rank repeated over the channels; Threshold states that every channel at (y, x) holds the rank |
| Bayer.Tile | Ditherer.py:45-47 | `np.tile` of the matrix; its extent and contents are stated by Repeat and RepeatAt |
| Bayer.Crop | Ditherer.py:48 | the slice `[:h, :w]`, stopping at the end of the sequence as Python slicing does; its extent and contents are stated by TiledPlaneAt |
| Bayer.TiledPlane | Ditherer.py:45-57 | the matrix tiled and cropped to h×w; TiledPlaneAt states that it has extent h×w and holds `m[y mod S][x mod S]` |
| Bayer.Repeat | Ditherer.py:45-47 | n copies of a sequence have length n·|s| |
| Bayer.RepeatAt | Ditherer.py:45-47 | position i of the repetition holds `s[i mod |s|]` |
| Bayer.TileCovers | Ditherer.py:46-47 | the repetition count `H // S + 1` covers the extent: `(H // S + 1)·S >= H` |
| Bayer.TiledPlaneAt | Ditherer.py:45-57 | the tiled and cropped plane has extent h×w, and its entry at (y, x) is `m[y mod S][x mod S]` |
| Bayer.Threshold | Ditherer.py:35-57 | the threshold grid has extent h×w, with 3 channels in colour mode and 1 otherwise, and every channel at (y, x) holds `m[y mod S][x mod S]` |
| Quantize.Level | Ditherer.py:60-62 | the level before the clip, `(num·(steps-1)·S² + den·k) div (den·S²)`; LevelIsFloor states that it is the floor of `v·(steps-1) + k/S²` |
| Quantize.DitherSample | Ditherer.py:60-67 | one output sample: the level, clipped, rescaled to a byte; DitherAt states that every output sample is this value, and LevelInRange, ToByte and SampleIsLevel state its range |
| Quantize.LevelIsFloor | Ditherer.py:60-62 | the level q satisfies `q <= v·(steps-1) + k/S² < q + 1` |
| Quantize.LevelInRange | Ditherer.py:60-64 | for v in [0, 1] and a rank below S², the level lies in 0..steps-1, so the clip leaves it unchanged |
| Quantize.Clip | Ditherer.py:63-64 | the clipped level lies in 0..steps-1: below 0 it becomes 0, above steps-1 it becomes steps-1, otherwise it is unchanged |
| Quantize.ToByte | Ditherer.py:67 | level 0 rescales to byte 0 and level steps-1 to byte 255 |
| Quantize.BlackStaysBlack | Ditherer.py:60-67 | a sample of 0 dithers to 0 against any threshold in [0, 1) |
| Quantize.WhiteStaysWhite | Ditherer.py:60-67 | a sample of 1 dithers to 255 against any threshold in [0, 1) |
| Quantize.TwoStepSample | Ditherer.py:60-67 | at two steps a sample dithers to 0 or 255, and to 255 exactly when `v + k/S² >= 1` |
| Quantize.UpperHalfTwoStep | Ditherer.py:60-67 | a value in [1/2, 3/4) at two steps against a 2×2 rank is black for ranks 0 and 1 and white for ranks 2 and 3 |
| Quantize.MidGreyTwoStep | Ditherer.py:60-67 | a byte of 128..191 at two steps against a 2×2 rank is black for ranks 0 and 1 and white for ranks 2 and 3 |
| Quantize.MidGreyThreeStep | Ditherer.py:60-67 | the byte 128 at three steps against any 2×2 rank rescales to 127 |
| Quantize.LevelsCount | Ditherer.py:67 | the first n levels rescale to at most n distinct bytes |
| Quantize.SampleIsLevel | Ditherer.py:60-67 | every dithered sample is one of the `steps` rescaled levels |

## Left out

- The bilinear resize `image.resize(..., Image.BILINEAR)` is a library call with floating-point interpolation. It is the parameter `resize` of `Ditherer.ApplyBayerDithering`. The only thing required of it is the extent and channel count of its result, so its sample values are not modelled. Neither is the library's behaviour when a side shrinks to 0; there the model returns an empty raster of that extent.
- The conversions `np.array(image, dtype=np.float32)` and `Image.fromarray(..., mode=...)` are not modelled. A raster holds its extent, channel count and samples directly, and a grey image is a one-channel grid.
- NumPy's `float32` arithmetic is replaced by exact rationals. Where `v·(steps-1) + t` lands within rounding error of an integer, the float result may differ from the floor modelled here.
- The final `np.clip` is modelled on the level, as a clip to 0..steps-1. Before rescaling, this equals the source's clip of `level/(steps-1)` to [0, 1]. `Quantize.LevelInRange` shows the clip never acts in exact arithmetic.
- `steps` defaults to `None` in the source, and that value fails at `steps - 1`. The model requires `steps >= 2`. With `steps = 1` the source divides by zero at Ditherer.py:63, before the clip. Its level is then 0/0: NumPy gives `nan` with a warning rather than an error, and the `uint8` cast at Ditherer.py:67 gives unspecified bytes. The model does not describe that output. The precondition also excludes `steps <= 0`: there `steps - 1` is a non-zero divisor and the source returns an ordinary image (at `steps = 0`, 255 where `v > t` and 0 elsewhere), which the model does not describe either.
- `scale_factor` is required to be at least 1. With 0 the source fails at the floor division, and negative factors give negative extents.
- In colour mode, inputs with 2 or 4 channels (grey with alpha, RGBA) are excluded by a precondition. With those, the source's 3-channel threshold does not broadcast and NumPy raises an error.
- More steps do not always mean more distinct output values: `Ditherer.StepsNotMonotone` exhibits an image whose output has two values at two steps and one at three. The code has no such monotonicity, so the model proves none.
- The function is deterministic and leaves its input unchanged. Both hold by construction, because every member is a function on values. No separate lemma states them.
- An unknown `matrix_size` gets the 2×2 matrix, as the code's dictionary lookup with a default does. No error is raised.
- The defaults `scale_factor=2`, `matrix_size=2` and `color=False` of Ditherer.py:4 are not modelled: every parameter of `Ditherer.ApplyBayerDithering` is explicit. No computation depends on the defaults.
- The whole of `Ditherer_gui.py` is not part of this model. That covers its window layout, file dialogs, progress bar, resize debounce, preview scaling, export upscale and label-to-size mapping. That file calls the function without `steps`, which reaches the `None` case above.
