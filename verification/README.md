# Spectral colour scale of worldbuilder-rs, in Dafny

This project models the colour-scale engine of worldbuilder-rs (`src/color.rs`).
The engine turns a number into a colour of the "spectral" palette:

- `get_colors` cuts a packed hex string into six-character chunks. Each chunk
  becomes one colour stop: red, green and blue are the base-16 values of its
  three character pairs divided by 255, and alpha is 1.
- `new` builds the palette from the last entry of `SPECTRAL_COLORS_STRS`,
  which gives eleven stops.
- `basis` is the uniform cubic B-spline blend of four control values.
- `spline` picks a segment index from `t`, reads neighbouring values and
  blends them.
- `rgb_spline` / `interpolate_spectral` run the spline on each channel.
- `scale_sequential` maps `x` in `[x0, x1]` to a parameter, optionally clamps
  it, interpolates, and casts every channel times 255 to a byte.
  `scale_spectral` and `scale_spectral_clamp` are its two uses.

`f32` is modelled as `real`; a Rust panic (an `unwrap` on a bad hex pair, an
out-of-bounds read in `spline`) is `None` in the `Option`-returning members,
and a precondition (`SplineInBounds`) in the total ones.

Modules, one per concern: `Wrappers` (`Option`), `ColorTypes` (`Rgba`,
`Rgba8`, `Byte`), `Hex` (`i32::from_str_radix` on a pair), `Palette`
(`get_colors`, the table, `new`), `Spline` (`basis`, `spline`, `rgb_spline`,
`interpolate_spectral`), `Scale` (`scale_sequential`, the byte cast, the
spectral scales).

The model keeps these behaviours of `color.rs`:

- Clamp: with `clamp = true` a parameter below 0 becomes 0, one in `[0, 1)`
  becomes 1, and one at or above 1 passes through. Since `spline` can read
  only while `t * n < n - 1`, the clamped scale is defined only where the
  domain parameter is negative (`x` beyond `x0`, away from `x1`). There it
  gives the first stop, in exact arithmetic (`Scale.ScaleClamped`). A clamped
  scale at `x = x0` panics.
- Local parameter: `basis` is called with `t * (n - i)`, not the position
  inside the segment. For `t <= 0` the inner `t_prime = 0` shadows the outer
  one only inside its block, so for `t < 0` the parameter is `t * n`, which
  is negative. The curve therefore extrapolates left of the first stop
  (`Spline.SplineLeftEdge`) and can leave the range of its values
  (`Spline.SplineOvershoots`).
- `v3` is always `values[3]`: the `i < n` test holds once `values[i]` has
  been read, so the other branch is dead.
- A specifier whose length is not a multiple of 6 is not an error: the
  trailing characters are ignored.
- Hex pairs are read by `i32::from_str_radix`, which also accepts a sign
  followed by one digit (`"+f"`, `"-3"`). A channel can therefore be as low
  as `-15/255`; it lies in `[0, 1]` when all six characters are hex digits.
- `x0 == x1` is not checked; see Left out.

## Model

| member | source | states |
|---|---|---|
| Hex.ParsePair | src/color.rs:66-68 | a pair parses exactly when the second character is a hex digit and the first is a hex digit or a sign; the value lies in [-15, 255], is negative only after `-`, and is non-negative for two hex digits |
| Hex.ParseEncodeByte | src/color.rs:66-68 | the two lower-case hex digits of a byte parse back to that byte |
| Hex.EncodeParsePair | src/color.rs:66-68 | a pair of lower-case hex digits parses to a byte whose encoding is that pair |
| Palette.ParseChunk | src/color.rs:61-70 | a six-character chunk gives a colour exactly when all three of its pairs parse |
| Palette.ParseChunkRange | src/color.rs:66-70 | a parsed chunk has alpha 1 and channels in [-15/255, 1]; six hex digits always parse, to a colour with every channel in [0, 1] |
| Palette.ParseColors | src/color.rs:56-60 | a successful parse gives exactly `len / 6` colours |
| Palette.ParseColorsChunkwise | src/color.rs:55-76 | the palette parses exactly when every six-character chunk does, and colour `i` is the parse of characters `[6i, 6i + 6)` |
| Palette.AllHexInRange | src/color.rs:55-76 | a specifier of hex digits only always parses, and every stop has alpha 1 and channels in [0, 1] |
| Palette.GetColors | src/color.rs:55-76 | the chunk-by-chunk loop of `get_colors` returns the same result as the recursive definition |
| Palette.ParseColorsIgnoresTail | src/color.rs:56-60 | appending fewer than six characters to a specifier of whole chunks does not change the result |
| Palette.ParseColorsAppend | src/color.rs:55-76 | parsing a concatenation whose first part is whole chunks is the concatenation of the two parses |
| Palette.ParseEncodeRoundTrip | src/color.rs:61-70 | encoding byte triples as hex and parsing the result gives back the stops those triples stand for |
| Palette.TableShape | src/color.rs:11-21 | the table has nine entries of 18, 24, ..., 66 characters, each a whole number of chunks |
| Palette.New | src/color.rs:48-53 | the palette is the eleven stops of the last table entry, each with channels in [0, 1] and alpha 1, from `#9e0142` to `#5e4fa2` (channel values in exact arithmetic) |
| Spline.BasisReproducesConstants | src/color.rs:78-86 | the blend of four equal values is that value for every parameter |
| Spline.BasisAffine | src/color.rs:78-86 | the blend commutes with scaling and shifting the control values |
| Spline.BasisAtKnots | src/color.rs:78-86 | at parameters 0 and 1 the blend is the 1-4-1 average of the first and last three control values |
| Spline.BasisConvex | src/color.rs:78-86 | for parameters in [0, 1] the blend lies between the least and greatest control value |
| Spline.Basis | src/color.rs:78-86 | no contract of its own; Spline.BasisReproducesConstants, Spline.BasisAffine, Spline.BasisAtKnots and Spline.BasisConvex state its properties |
| Spline.SegmentIndex | src/color.rs:89-98 | the segment is 0 for `t <= 0` and otherwise the `i` with `i <= t * n < i + 1` |
| Spline.ReadIndicesInBounds | src/color.rs:100-111 | all of `spline`'s reads are in bounds exactly when `n >= 4` and `i + 1 < n` |
| Spline.SplineInBoundsIff | src/color.rs:88-111 | the reads are in bounds exactly when `n >= 4` and `t * n < n - 1` |
| Spline.TrySpline | src/color.rs:88-114 | `spline` returns a value exactly when its reads are in bounds, and panics otherwise |
| Spline.SplineAt | src/color.rs:88-114 | `spline` where it does not panic; no contract of its own; Spline.SplineLocal, Spline.SplineAtOrigin, Spline.SplineLeftEdge, Spline.SplineConstant and Spline.SplineOvershoots state its properties |
| Spline.SplineLocal | src/color.rs:100-111 | the result depends only on positions `i - 1` (when `i > 0`), `i`, `i + 1` and 3 |
| Spline.SplineAtOrigin | src/color.rs:92-113 | at `t = 0` the first value is reproduced, in exact arithmetic |
| Spline.SplineLeftEdge | src/color.rs:92-113 | for `t <= 0` the result is the cubic `v0 + u (v1 - v0) + u^3 (v0 - 2 v1 + v3) / 6` in `u = t * n` |
| Spline.SplineConstant | src/color.rs:88-114 | a constant sequence is reproduced wherever the spline is defined |
| Spline.SplineOvershoots | src/color.rs:113 | with the local parameter `t * (n - i)`, eleven values in [0, 1] give 4.5 at `t = 1/2` |
| Spline.ChannelValues | src/color.rs:118-126 | the channel array has one entry per stop, and entry `i` is that channel of stop `i` |
| Spline.RgbSpline | src/color.rs:116-133 | the result has alpha 1 and each channel is the spline of that channel's values |
| Spline.RgbSplineChannelwise | src/color.rs:116-133 | a channel of the result depends only on that channel of the stops |
| Spline.RgbSplineAtOrigin | src/color.rs:116-133 | at `t = 0` the result is the first stop, made opaque |
| Spline.RgbSplineConstant | src/color.rs:116-133 | a palette of one repeated colour gives that colour, made opaque |
| Spline.InterpolateSpectral | src/color.rs:135-137 | no contract of its own; Spline.SpectralInterpolation and Scale.SplineInterpolatorSpectral state its properties |
| Spline.SpectralInterpolation | src/color.rs:135-137 | on the spectral palette the interpolation is defined exactly for `t < 10/11`, and at 0 gives the first stop |
| Scale.ToByte | src/color.rs:32-35 | `as u8`: 0 at or below 0, 255 from 255 up, and in between the integer part |
| Scale.ToByteMonotone | src/color.rs:32-35 | the cast preserves order |
| Scale.ToByteOfByte | src/color.rs:32-35 | a whole number in [0, 255] converts to itself |
| Scale.Quantize | src/color.rs:32-37 | for a colour with channels in [0, 1] each byte is the integer part of the channel times 255, and alpha 1 gives 255 |
| Scale.QuantizeStop | src/color.rs:32-37 | a stop parsed from three bytes quantizes back to those bytes with alpha 255 |
| Scale.Clamp | src/color.rs:27 | below 0 gives 0, `[0, 1)` gives 1, and at or above 1 the parameter passes through |
| Scale.ClampNeverInterior | src/color.rs:27 | the clamped value is never strictly between 0 and 1, and is 0 exactly for negative parameters |
| Scale.ClampIdempotentIff | src/color.rs:27 | clamping a second time leaves the parameter unchanged exactly when it is non-negative; a negative one goes to 0 and then to 1 |
| Scale.DomainParameter | src/color.rs:25 | `t` is the position of `x` in the domain: `t * (x1 - x0) == x - x0`, and `t == 0` at `x0` |
| Scale.InterpolatorParameter | src/color.rs:25-30 | unclamped, the parameter is the position of `x` in the domain; clamped, it is 0 or at least 1, and 0 exactly when the domain parameter is negative |
| Scale.ScaleSequential | src/color.rs:24-38 | the scale panics exactly when the interpolator does, and otherwise quantizes its colour |
| Scale.SplineInterpolator | src/color.rs:135-137 | `interpolate_spectral` as a callback that returns `None` where it would panic; no contract of its own; Scale.SplineInterpolatorDefined, Scale.SplineInterpolatorSpectral and Scale.SplineInterpolatorAtOrigin state its properties |
| Scale.SplineInterpolatorDefined | src/color.rs:116-137 | the spline interpolator over a palette panics exactly where `spline` would read out of bounds |
| Scale.SplineInterpolatorSpectral | src/color.rs:116-137 | over a palette's stops the spline interpolator is defined exactly where `interpolate_spectral` does not panic, and there returns its colour |
| Scale.UnclampedDefinedFor | src/color.rs:24-38 | unclamped, a scale whose interpolator panics where a spline over `n` values would is defined exactly when `n >= 4` and `t * n < n - 1` |
| Scale.ClampedDefinedFor | src/color.rs:24-38 | clamped, such a scale is defined exactly when `n >= 4` and the domain parameter is negative (`x` beyond `x0`, away from `x1`) |
| Scale.ClampedValueFor | src/color.rs:24-38 | clamped, where such a scale is defined it gives the quantized colour the interpolator gives at 0 |
| Scale.ScaleAtDomainStart | src/color.rs:24-38 | unclamped, the scale at `x0` is the first stop, made opaque and quantized |
| Scale.ScaleClamped | src/color.rs:24-38 | clamped, the spline scale is defined exactly when `n >= 4` and the domain parameter is negative (`x` beyond `x0`, away from `x1`), and then gives the first stop |
| Scale.ScaleSpectral | src/color.rs:139-141 | no contract of its own; Scale.SpectralScales states where it is defined and its value at 0 |
| Scale.ScaleSpectralClamp | src/color.rs:143-145 | no contract of its own; Scale.SpectralScales states where it is defined and its value there |
| Scale.SpectralScales | src/color.rs:139-145 | `scale_spectral` is defined exactly for `x < 10/11` and, in exact arithmetic, gives `#9e0142` opaque at 0; `scale_spectral_clamp` is defined exactly for `x < 0` and, in exact arithmetic, gives `#9e0142` there |

## Left out

- `src/canvas.rs` and `src/main.rs` are not part of this model: a wrapper over
  the skia drawing library, random point jitter, Voronoi tessellation and
  writing a PNG file.
- IEEE-754 `f32` behaviour: rounding in `/ 255.`, in the basis polynomial and
  in `(x - x0) / (x1 - x0)`, and NaN and infinities. Arithmetic is exact over
  `real`. As a result, `x0 == x1` (which gives NaN or an infinity in the
  original) is excluded by a precondition of `Scale.DomainParameter` and the
  members built on it.
- Scale.ToByte: the saturating cast is modelled for every real, but NaN, which
  the cast maps to 0, has no counterpart over `real`.
- `as usize` on `floor(t * n)` saturates for huge `t`; over `real` the index
  is exact. Either way it is at least `n`, so the first read panics.
- Palette.ParseColors: a specifier is a sequence of characters, and its
  length counts characters, while the original's `len()` and slices count
  UTF-8 bytes. For ASCII specifiers the two agree. With multi-byte
  characters they can differ: a slice through the middle of a character
  panics in the original, and multi-byte characters after the last full
  chunk add chunks there (which then fail `unwrap` and panic), while the
  model may have fewer chunks and never reads them. `"000000ééé"` is one
  black stop here and a panic in the original.
- The `&dyn Fn` callbacks: `rgb_spline` calls `spline` directly, and
  `scale_sequential` takes the interpolator as a function value returning
  `None` where it would panic.
- Scale.SpectralScales: the interpolator used is `Scale.SplineInterpolator`
  over the palette's stops, which is `interpolate_spectral` with its panic
  made explicit.
- Scale.SpectralScales: the colour at 0 holds in exact arithmetic only. Over
  `f32`, `spline` at `t = 0` computes `(v0 + 4 v1 + v2) / 6` with
  `v0 = 2 v1 - v2`; for the green values `1/255` and `62/255` this rounds to
  a number that, times 255, is `0.99999994`, and `as u8` truncates it to 0.
  So the original's `scale_spectral(0.0)` is `RGBA8(0x9e, 0x00, 0x42, 255)`,
  while the model gives green `0x01`. Spline.SplineAtOrigin and
  Spline.RgbSplineAtOrigin are exact-arithmetic statements for the same
  reason.
- Spline.BasisAffine: the affine property is proved for the blend only, not
  lifted to whole `spline` calls.
