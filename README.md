# Bilinear resize of `main.cpp`, modelled in Dafny

This project models the integer and structural core of the image viewer's
bilinear resize, `copy_resize_image` in `main.cpp`, and the small buffer
routines around it. The modules follow the parts of that function:

- `Image` (`image.dfy`): the `bgra_image` buffer. It is a class whose pixel
  vector is a sequence. It covers `create`, `std::vector::resize`, and the
  band-packing loader `gdal_read_bgra_image`. A GDAL dataset is reduced to its
  raster size and the bytes each band reads back.
- `Blend` (`blend.dfy`): the generic `lerp` and `bilerp` templates, over exact
  reals.
- `Stepper` (`stepper.dfy`): the `index` lambda and its inverse by `%` and `/`.
  Also the coordinate stepper: `inc_split` as a loop over reals, and `translate`
  as the closed form it must agree with.
- `Dispatch` (`dispatch.dfy`): `divide_round_up` and the tile-splitting loop,
  which yields the list of `(offset, count)` tiles. Also the worker count and the
  16 thread slots.
- `Resize` (`resize.dfy`): the per-tile driver `worker` as a loop over the
  destination pixels, and `copy_resize_image` running the tiles one after
  another.

The blend kernel `bilerp_bgra` is a parameter `kernel: Sample -> Pixel`. A
`Sample` holds what the driver passes to the kernel: the flattened source index
of the top-left corner, the row weight `yt` and the column weight `xt`. The
main result is `Resize.CopyResize`. Every destination pixel `k` becomes
`kernel(SampleAt(k, ...))`, and `SampleAt` depends only on `k`'s own column and
row. The driver reaches each pixel by stepping, yet the result matches the
closed form. So, over exact reals, the result is the same for any worker count.

Edge cases of the code:

- The code reads `src[idx_src + 1]`, `src[idx_src + w1]` and
  `src[idx_src + w1 + 1]` with no clamp at the last column or row; the model
  states no source-bounds property.
- The conditional at main.cpp:240-241 gives a ratio of 0 when the destination
  axis is 0; the formula `(w1 - 1) / (w2 - 1)` also gives 0 when the source axis
  is 1; a destination axis of 1 divides by zero in `float`. The model takes the
  ratios as parameters (see Left out).
- A worker count of 0 divides by zero; the model clamps it (see Findings).

## Model

| member | source | states |
|---|---|---|
| `Image.Resized` | main.cpp:133 | resizing keeps the first `min(n, old length)` pixels, value-initialises the rest, and yields exactly `n` pixels |
| `Image.BgraImage.constructor` | main.cpp:121-124 | a default image is empty with size 0 x 0 and satisfies the storage invariant |
| `Image.BgraImage.CreateAsWritten` | main.cpp:131-136 | as written, `create` sets both size fields and resizes the vector to the 32-bit wrapped product `w * h` |
| `Image.BgraImage.Create` | main.cpp:131-136 | corrected `create`: size fields `{w, h}`, and the vector resized to exactly `w * h` pixels, so the storage invariant holds |
| `Image.ElementCountWraps` | main.cpp:133 | for a 65536 x 65536 image the 32-bit element count is 0 |
| `Image.ReadBgra` | main.cpp:143-172 | succeeds iff a dataset with exactly 3 bands is given; a refusal changes nothing; on success the image has the raster size and `w * h` pixels, channel `2 - i` of pixel `j` is band `i`'s byte `j`, and every alpha is 0xFF |
| `Blend.Lerp` | main.cpp:175-179 | `lerp(a, b, 0) == a` and `lerp(a, b, 1) == b` |
| `Blend.LerpBetween` | main.cpp:175-179 | for `t` in [0, 1], `lerp(a, b, t)` lies between `min(a, b)` and `max(a, b)` |
| `Blend.Bilerp` | main.cpp:182-188 | the four corner weights select `a1`, `a2`, `b1` or `b2`; `tab = 0` or `tab = 1` gives the `t12` blend of the a-pair or of the b-pair |
| `Blend.BilerpBetween` | main.cpp:182-188 | for weights in [0, 1] the blend lies between the least and the greatest of the four corners |
| `Blend.BilerpSymmetric` | main.cpp:182-188 | blending the pairs first along `t12`, then along `tab`, equals blending first along `tab`, then along `t12` |
| `Stepper.Index` | main.cpp:243-247 | for `x < w`, `y * w + x` lies in row `y`, i.e. in `[y * w, y * w + w)` |
| `Stepper.IndexInverse` | main.cpp:273-274 | for `x < w`, `index(x, y, w) % w == x` and `index(x, y, w) / w == y` |
| `Stepper.IndexDecompose` | main.cpp:273-274 | every offset equals `index(offset % w, offset / w, w)` |
| `Stepper.NormalUnique` | main.cpp:249-258 | a stepper position with fractional part in [0, 1) is determined by the value `integral + fractional` |
| `Stepper.Translate` | main.cpp:260-268 | the closed-form position of step `w` has fractional part in [0, 1) and value exactly `w * ratio` |
| `Stepper.IncSplit` | main.cpp:249-258 | the value `integral + fractional` grows by exactly `dx`; `integral` never decreases; the fractional part ends below 1, and in [0, 1) when `fractional + dx >= 0`; no carry happens when `fractional + dx < 1` |
| `Stepper.SteppingMatchesTranslate` | main.cpp:288-298 | one incremental step from the closed form of step `n` is the closed form of step `n + 1` |
| `Dispatch.DivideRoundUp` | main.cpp:303-307 | `q * y >= x`, and `(q - 1) * y < x` when `q > 0` |
| `Dispatch.DivideRoundUpIsLeast` | main.cpp:303-307 | `divide_round_up(x, y)` is the least `q` with `q * y >= x` |
| `Dispatch.DivideRoundUpStep` | main.cpp:303-307 | for `x > y`, taking `y` off `x` takes one off the rounded-up quotient |
| `Dispatch.PartitionOrdered` | main.cpp:315-320 | in a tiling each tile ends no later than any later tile starts |
| `Dispatch.CoveredExactlyOnce` | main.cpp:315-320 | the tiles of a partition of `[start, end)` cover exactly that range, and no index lies in two tiles |
| `Dispatch.ChunksPartition` | main.cpp:315-320 | the tiles the loop emits from `offset` are non-empty and contiguous, and they partition `[offset, total)` in increasing order |
| `Dispatch.ChunksSizes` | main.cpp:317 | every tile has at most `split_size` pixels, and all but the last have exactly `split_size` |
| `Dispatch.ChunksCount` | main.cpp:313-320 | the loop emits `divide_round_up(total - offset, split_size)` tiles |
| `Dispatch.TileCountAtMost` | main.cpp:312-320 | with `n` workers there are at most `n` tiles |
| `Dispatch.SplitWork` | main.cpp:310-320 | the tile loop returns a partition of `[0, N)` into tiles of at most `divide_round_up(N, n)` pixels, all full but the last, no tile when `N == 0`, and `TileCount(N, n) <= n` tiles |
| `Dispatch.TileCountExceedsSlots` | main.cpp:309-320 | with 17 hardware threads and 17 pixels, 17 tiles are dispatched into 16 thread slots |
| `Dispatch.WorkerCount` | main.cpp:312 | the corrected worker count lies in [1, 16] and equals the hardware concurrency whenever that is already in range |
| `Dispatch.TilesFitSlots` | main.cpp:309-318 | with the corrected worker count, every tile has a thread slot |
| `Resize.SampleAt` | main.cpp:273-285 | the closed-form blend arguments of a destination pixel have both weights in [0, 1) |
| `Resize.PositionedAtSeed` | main.cpp:273-278 | seeding a tile from `offset % w2` and `offset / w2` through `translate` puts the driver at `offset` |
| `Resize.PositionedSample` | main.cpp:282-286 | where the driver stands, the corner index and weights it passes to the kernel are the closed-form sample of that pixel |
| `Resize.PositionedNextColumn` | main.cpp:288-295 | inside a row, carrying the column stepper into the source index puts the driver at the next pixel with `x == idx_dst % w2` |
| `Resize.PositionedNextRow` | main.cpp:294-299 | at the end of a row, `x` and `xt` reset to 0, the row stepper carries once, `idx_src` restarts at `ys * w1`, and the driver stands at the next row's first pixel |
| `Resize.RunExtend` | main.cpp:282 | writing `idx_dst++` extends the run of written indices by one |
| `Resize.Worker` | main.cpp:270-301 | `worker(offset, iters)` writes exactly indices `offset .. offset + iters - 1`, once each and in increasing order; each gets the blend of its closed-form sample, and every other pixel is unchanged |
| `Resize.CopyResize` | main.cpp:227-320 | the destination has exactly `w2 * h2` pixels; a source with a zero dimension leaves the resized buffer as is; otherwise every destination pixel is the blend of its own closed-form sample, whatever the worker count |

## Findings

| source | as written | input that shows it | evidently intended | confidence | as-written member | corrected member |
|---|---|---|---|---|---|---|
| main.cpp:133 | `data.resize(w * h)` multiplies two `uint32_t` values, so the element count wraps at 2^32. The same product appears at main.cpp:157 and main.cpp:234 | the resize path calls `create` with `uint16_t` sizes (main.cpp:478), so there the product fits; the loader does not: `gdal_read_bgra_image` on a 65536 x 65536 raster computes `N = w * h` (main.cpp:157) as 0 and resizes the buffer to no pixels, while `size == {65536, 65536}` | an element count of exactly `w * h`, computed in `size_t` | medium, not executed | `Image.BgraImage.CreateAsWritten`, `Image.ElementCountWraps` | `Image.BgraImage.Create`; `Image.ReadBgra` and `Resize.CopyResize` compute the same exact product |
| main.cpp:309-326 | one thread per tile goes into `threads[i]` of a 16-slot array, and the join loop reads `threads[0..n-1]`. With `n = hardware_concurrency()` above 16 both overrun the array, and `n == 0` divides by zero in `divide_round_up` | `hardware_concurrency() == 17` and a 17-pixel destination give 17 tiles | a worker count clamped to [1, 16] | high, not executed | `Dispatch.SplitWork`, `Dispatch.TileCountExceedsSlots` | `Dispatch.WorkerCount` (used by `Resize.CopyResize`), `Dispatch.TilesFitSlots` |

## Left out

- Threads: tiles run one after another. Creation and joining are not modelled. Tile `i` is only recorded in thread slot `i`.
- `bilerp_bgra` (main.cpp:192-223) relies on SSE intrinsics, `_mm_cvtps_epi32` rounding and a byte shuffle. Its reads of the four source corners are left out too. It is the `kernel` parameter. `Blend` states the exact-real blend it approximates.
- Resize.Worker: its contract says which kernel arguments each destination pixel receives, not what the kernel reads. The reads `src[idx_src + 1]`, `src[idx_src + w1]` and `src[idx_src + w1 + 1]` can pass the last column or row. No source-bounds property is claimed.
- Resize.CopyResize: the axis ratios are parameters, any non-negative reals. Left out: their float formula, the `(1 - FLT_EPSILON)` factor, and the float division by zero when a destination axis is 1 (main.cpp:240-241).
- Resize.CopyResize: computes `w2 * h2` exactly, not the 32-bit product of main.cpp:234; the only caller sizes the destination from `uint16_t` values (main.cpp:478), so the product never wraps there.
- Resize.CopyResize: over exact reals the output does not depend on the worker count. The program steps `xt`/`yt` in `float` from each tile's seed, and the tile boundaries depend on `hardware_concurrency()` (main.cpp:274-275, 288-298, 313), so its output may differ between machines with different core counts, notably at a carry boundary.
- Stepper.Translate: exact reals, not `float`, so it does not model the rounding of `std::modf` on `w * ratio`.
- Stepper.IncSplit: exact reals, not `float`, so the rounding error that `xt += xratio` accumulates (main.cpp:288) is not modelled.
- Stepper.Index: unbounded integers, so `size_t` wrap-around of `y * w + x` is not modelled.
- Dispatch.DivideRoundUp: unbounded integers, so `size_t` wrap-around of `x + y - 1` is not modelled.
- Dispatch.SplitWork: requires at least one worker, because as written `n == 0` divides by zero. The corrected `Dispatch.WorkerCount` never yields 0.
- Image.Resized: the pixels `resize` appends are taken to be `[0, 0, 0, 0]`; that a value-initialised `ksn::vec<4, uint8_t>` is zero depends on its default constructor, which is not part of this model.
- Image.ReadBgra: computes the element count `w * h` exactly, not as the 32-bit wrapped product of main.cpp:157; the as-written wrap is shown by `Image.ElementCountWraps` and the Findings table.
- Image.ReadBgra: each band read is a given byte sequence of the raster's size. `gdal_read_2darray` (main.cpp:94-116) is not part of this model. The loader ignores its result, and a failed read would leave a stale or empty band buffer.
- The GDAL plumbing (`gdal_open`, `get_gdal_type`, `get_gdal_etype`, the `silent_handler` error handler) and `bgra_image::draw` / `operator[]` (main.cpp:43-116, 126-140) are I/O or trivial accessors.
- The Windows UI, file dialogs, printing, `vector_playground` and the event loop in `main` (main.cpp:37-41, 329-487) are I/O.
