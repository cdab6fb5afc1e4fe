# Nearest-neighbour image resampling

This project models `nearestNeighborInterpolation` from the photo editor's
`src/interpolations.js`. The routine resizes an RGBA8 raster. Its input is
a row-major buffer of `width * height` pixels with four 8-bit channels each.
It allocates a zeroed buffer of `newWidth * newHeight * 4` channels. It then
walks the destination row by row, `y` outer and `x` inner. For each pixel it
copies the four channels of the source pixel at
`(floor(x * width / newWidth), floor(y * height / newHeight))`. The new buffer
is returned with the new dimensions.

The model has four modules:

- `Naturals` (`naturals.dfy`) defines multiplication (`Times`) and
  floor division (`Quotient`) of natural numbers by recursion and
  proves them equal to `*` and `/`. Buffer sizes and row starts are
  written with them. The solver then reasons about the products of
  dimensions only where a proof asks it to.
- `Raster` (`raster.dfy`) holds the buffer layout: the `byte` channel type,
  the `Image` value (buffer, width, height) and its `Valid` invariant. It
  also holds the row-major `Offset` of a pixel, its inverse
  (`ColumnOf`/`RowOf`/`ChannelOf`) and `Pixel`, the four channels of one pixel.
- `Interpolations` (`interpolations.dfy`) holds the resampler.
  `SourceCoord` is the coordinate mapping. `Resize` is the pure
  specification, built row by row and pixel by pixel as the loops visit
  them. `NearestNeighborInterpolation` is the nested-loop method
  that fills a fresh array, proved equal to `Resize`. `ResizeChecked` makes
  the argument errors explicit.
- `ResizeProperties` (`properties.dfy`) holds consequences of the rule: the
  mapping is the real-number floor and is monotone. It also proves the
  identity resize, the one-pixel source, and the worked 2x2, 4x4 and
  upscaling examples.

The partner of `Resize` is the per-pixel rule. `ResizeCharacterised` shows
that an image of the target size equals `Resize`'s result if and only if
every one of its pixels copies the source pixel at the scaled coordinates.
The layout lemmas show that `Offset` is a bijection from
(column, row, channel) onto `[0, w * h * 4)`. `OffsetRoundTrip` and
`OffsetInjective` give one direction and `DecomposeRoundTrip` gives the
other. So the loop writes every slot of the output exactly once.

The scale factors at src/interpolations.js:4-5 are floating-point numbers.
The model uses exact arithmetic instead: `SourceCoord(x, W, newW) = x * W / newW`
in natural-number division. `SourceCoordFloorsScale` proves that this is
the floor of the exact real product `x * (W / newW)`.

The code makes no argument checks. Its input is a host `ImageData`, whose
own invariant already guarantees positive dimensions and a buffer of
`width * height * 4` bytes. A zero target dimension fails only when the
host `ImageData` constructor at line 21 throws, after the loops have run
over nothing. `Resize` and the method therefore take these conditions as
preconditions. `ResizeChecked` adds two checks: a zero dimension gives
`InvalidDimensions`, and a buffer of the wrong length gives
`BufferSizeMismatch`. Otherwise it resamples.

## Model

| member | source | states |
|---|---|---|
| Raster.BufferLength | src/interpolations.js:6 | the allocated length `newWidth * newHeight * 4` is the length of `newHeight` rows of `newWidth` four-channel pixels |
| Raster.OffsetInBounds | src/interpolations.js:12-13 | every channel index `(y*w + x)*4 + c` of an in-range pixel lies below `w*h*4` |
| Raster.RowOfIsDivision | src/interpolations.js:8-12 | the row recovered from a buffer index is the integer division `i / 4 / w`, inverting the `y * newWidth` term of line 12 |
| Raster.Pixel | src/interpolations.js:13-18 | the four bytes read for a pixel are the channels at `originalIndex`, `originalIndex + 1`, `+ 2` and `+ 3`, all inside the buffer |
| Raster.OffsetRoundTrip | src/interpolations.js:8-12 | the destination index determines the pixel `(x, y)` and channel `c` that produced it |
| Raster.OffsetInjective | src/interpolations.js:8-12 | two distinct (pixel, channel) pairs never write the same output slot |
| Raster.DecomposeRoundTrip | src/interpolations.js:8-12 | every slot of a `w*h*4` buffer is some in-range pixel's channel, so the row-major walk leaves no slot unwritten |
| Interpolations.SourceCoord | src/interpolations.js:4-11 | the sampled coordinate `p` satisfies `p*dst <= d*src < (p+1)*dst`, and stays below `src` when `d < dst` |
| Interpolations.ScaledBelow | src/interpolations.js:10-11 | for `x < newW` and `W >= 1`, `floor(x*W/newW) < W` |
| Interpolations.SourcePixel | src/interpolations.js:10-18 | destination pixel `(x, y)` copies channel `c` from index `originalIndex + c` of the source pixel at the scaled coordinates |
| Interpolations.RowPrefix | src/interpolations.js:9-19 | the first `x` pixels of a destination row hold exactly `4*x` channels |
| Interpolations.RowsPrefix | src/interpolations.js:8-20 | the first `y` destination rows fill the buffer exactly up to the start of row `y`, `y*newWidth*4` |
| Interpolations.ResizeLength | src/interpolations.js:6-21 | the resampled buffer has the allocated length `newWidth * newHeight * 4` |
| Interpolations.RowPrefixAt | src/interpolations.js:9-18 | channel `c` of pixel `k` in a row prefix is channel `c` of the source pixel that pixel `k` samples |
| Interpolations.RowsPrefixLast | src/interpolations.js:8-12 | the row written last starts where the rows before it end, at `(y - 1)*newWidth*4` |
| Interpolations.RowsPrefixEarlier | src/interpolations.js:8-9 | writing a further row leaves the earlier rows' bytes unchanged |
| Interpolations.RowsPrefixAt | src/interpolations.js:8-12 | the channel at `(k*4 + c)` of row `j` lands at index `(j*newWidth + k)*4 + c` of the buffer |
| Interpolations.Resize | src/interpolations.js:6-21 | the output is a valid image of exactly `newWidth` by `newHeight` pixels, `newWidth*newHeight*4` bytes |
| Interpolations.ResizeAt | src/interpolations.js:10-18 | channel `c` of output pixel `(x, y)` equals channel `c` of input pixel `(floor(x*W/newW), floor(y*H/newH))` |
| Interpolations.ResizeSourcesNearest | src/interpolations.js:8-20 | every output pixel is a four-channel copy of the input pixel at the scaled coordinates |
| Interpolations.ChannelDetermined | src/interpolations.js:12-18 | a destination pixel that copies its source pixel agrees with the result in each of its channels |
| Interpolations.PixelRuleDeterminesBuffer | src/interpolations.js:8-20 | an image of the target size whose every pixel obeys the rule has exactly the result's bytes |
| Interpolations.ResizeCharacterised | src/interpolations.js:8-20 | an image of the target size is the result if and only if every pixel obeys the nearest-neighbour rule |
| Interpolations.SourceReadInBounds | src/interpolations.js:10-13 | `px < W`, `py < H` and `originalIndex + 3` lies inside the input buffer, without clamping |
| Interpolations.ResizePixelCopy | src/interpolations.js:12-18 | the four writes of one pixel land inside the output, read inside the input, and store the specified bytes |
| Interpolations.FillRow | src/interpolations.js:9-19 | the inner loop extends the correctly filled prefix of the output by one whole row |
| Interpolations.NearestNeighborInterpolation | src/interpolations.js:1-22 | the zero-filled buffer written by the nested `y`/`x` loops equals the specification `Resize` |
| Interpolations.ResizeChecked | src/interpolations.js:1-21 | zero dimensions give `InvalidDimensions`, a wrong buffer length gives `BufferSizeMismatch`, and every other input gives `Resize`'s result |
| ResizeProperties.SourceCoordFloorsScale | src/interpolations.js:4-11 | the integer mapping equals `floor(x * (W / newW))` in exact real arithmetic |
| ResizeProperties.SourceCoordMonotone | src/interpolations.js:10-11 | the sampled coordinate never decreases as the destination coordinate grows |
| ResizeProperties.SourceCoordIdentity | src/interpolations.js:4-11 | with equal sizes the scale is one and every coordinate maps to itself |
| ResizeProperties.ResizeIdentity | src/interpolations.js:4-18 | resizing to the input's own dimensions returns the input byte for byte |
| ResizeProperties.ResizeSinglePixel | src/interpolations.js:10-18 | a 1x1 source fills every output pixel with its four bytes, for any target size |
| ResizeProperties.ResizeTwoByTwoToOne | src/interpolations.js:8-20 | the 2x2 red/green/blue/white image resized to 1x1 is the single pixel `(255, 0, 0, 255)` |
| ResizeProperties.ResizeDownscaleFourToTwo | src/interpolations.js:10-18 | 4x4 to 2x2 samples input pixels (0,0), (2,0), (0,2) and (2,2) |
| ResizeProperties.ResizeUpscaleTwoToFour | src/interpolations.js:10-18 | 2x2 to 4x4 maps (0,0) and (1,1) to input (0,0), and (2,2) and (3,3) to input (1,1) |

## Left out

- Floating-point scale factors (src/interpolations.js:4-5): the model computes `floor(x * W / newW)` exactly. An IEEE-754 rounding of `x * scaleX` that lands just below an integer boundary is not modelled.
- Saturation of `Uint8ClampedArray` (src/interpolations.js:6): the copied values are already bytes, so clamping never changes them. Channels are the `byte` subset type `0..255`.
- The host `img` object and the `ImageData` constructor (src/interpolations.js:2-3, 21) are not modelled as objects. The input is an `Image` value and the output is an `Image` with the new dimensions.
- The exact host exception for a zero target dimension: the `ImageData` constructor at line 21 throws. `ResizeChecked` reports this as `InvalidDimensions`.
- Interpolations.ResizeChecked: the source itself never reports a length mismatch. With a buffer that is too short, lines 15-18 read `undefined`, which the clamped array stores as 0. `BufferSizeMismatch` is the model's own check; the model does not describe what the source computes from such a buffer.
- Negative, fractional or non-numeric dimensions: the model's dimensions are natural numbers. In the source, exactly one negative target dimension makes the `Uint8ClampedArray` allocation at line 6 throw a `RangeError`.
- The input buffer is never written: the input is an immutable sequence value, so this holds by construction rather than by a stated contract.
- Parallel execution of the loops: the source is single-threaded.
