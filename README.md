# pftest: a Dafny model of the pixel-format benchmark's buffer logic

`util/pftest.c` benchmarks conversions between pixel formats. For every
ordered pair of formats it allocates a source and a destination buffer whose
rows are padded to a multiple of `sizeof(int)` bytes (`BMPPAD`). It fills the
source with a colour gradient (`initBuf`) and converts it into the
destination. It then checks that the destination decodes to the same
gradient (`cmpBuf`) and frees both buffers. `main` sweeps over all pairs and
stops at the first failed trial.

This project models that logic in Dafny and proves what it guarantees:

- `layout.dfy` (module `Layouts`): `BMPPAD` with `sizeof(int)` = 4, and the
  geometry of a pitched buffer. Pixel `(i, j)` starts at byte
  `j*pitch + i*size`, and every image byte belongs to exactly one slot.
- `formats.dfy` (module `Formats`): a pixel format `PF`, given by its name,
  its size in bytes and its `getRGB`/`setRGB` accessors. The accessors are
  functions over a slot's bytes. `WellFormed` says the size is positive and
  `setRGB` keeps the slot's length. `RoundTrips` says that decoding what
  `setRGB` wrote into a zeroed slot gives back any colour with channels in
  0..255. `Rgb24` is one concrete format with that property.
- `patterns.dfy` (module `Patterns`): the gradient oracle. It uses exactly the
  source's truncated, unreduced integer quotients.
- `images.dfy` (module `Images`): a specification of a row-major pass that
  replaces every pixel slot by a function of its coordinates and old bytes.
  It says which bytes such a pass writes and which it leaves alone.
- `buffers.dfy` (module `Buffers`): `initBuf` and `cmpBuf` as methods over
  `array<bv8>`. `initBuf` is proved against that specification. `cmpBuf` is
  proved against `Matches`, which says that every pixel decodes to the
  gradient.
- `trials.dfy` (module `Trials`): the per-pixel copy pass and the control
  flow of `doTest`. Allocation results are parameters, and the frees are
  recorded in a log.
- `sweeps.dfy` (module `Sweeps`): `main`'s sweep over format pairs.
- `arith.dfy` (module `Arith`): division and multiplication facts used by
  the proofs.

`main` returns 0 on every path because `retval` is never reassigned, even
when a trial fails. The model follows the code here.

## Model

| member | source | states |
|---|---|---|
| Layouts.BmpPad | util/pftest.c:25 | The padded pitch is a multiple of 4, at least the row's byte count and less than 4 more. So `srcPitch` and `dstPitch` hold a whole row of pixels. |
| Layouts.SlotInBounds | util/pftest.c:44 | In a buffer of `height` rows of `pitch` bytes, the slot of pixel (i, j) at `j*pitch + i*size` lies inside row j and inside the buffer. |
| Layouts.ByteSlot | util/pftest.c:40-47 | Every byte of the image area lies in the slot of a pixel inside the image, found from the byte's row, column and lane. |
| Layouts.SlotByte | util/pftest.c:44-45 | Byte t of the slot of pixel (i, j) lies in the image and maps back to row j, column i and lane t, so no two slots overlap. |
| Patterns.Gradient | util/pftest.c:45-46 | Every channel of the expected colour lies in 0..255. |
| Patterns.BlueIsRedPlusGreen | util/pftest.c:62-63 | Blue, taken from the unreduced sum of the two quotients, equals (red + green) mod 256 for every coordinate, including ones outside the image. |
| Patterns.GradientInside | util/pftest.c:45-46 | Inside the image, red is `i*256/width` and green is `j*256/height` without any wrap-around, and blue is their sum mod 256. |
| Patterns.GradientExample | util/pftest.c:45-46 | Blue wraps: pixel (2, 1) of a 4 x 2 image is (128, 128, 0). |
| Images.RewrittenStep | util/pftest.c:40-47 | One more pixel written in row-major order extends the pass by exactly that pixel's slot. Before the write, that slot still holds its original bytes. |
| Images.MapPixelsAt | util/pftest.c:40-47 | After a full pass, slot (i, j) holds the pass's function applied to the slot's original bytes. |
| Images.MapPixelsFrame | util/pftest.c:40-47 | A full pass leaves row padding and the bytes past the last row unchanged. |
| Buffers.Memset | util/pftest.c:44 | Zeroing a slot sets exactly its bytes to 0 and leaves the rest of the buffer unchanged. |
| Buffers.StoreSlot | util/pftest.c:45 | Encoding into a slot changes only that slot's bytes. |
| Buffers.InitBuf | util/pftest.c:36-49 | After `initBuf`, the buffer is its old content with every pixel slot replaced by the gradient colour encoded into a zeroed slot. |
| Buffers.InitImageAt | util/pftest.c:44-46 | In `initBuf`'s result, slot (i, j) holds exactly `setRGB` of the gradient colour on a zeroed slot. |
| Buffers.InitImageFrame | util/pftest.c:40-47 | `initBuf` leaves row padding bytes and the bytes past the last row unchanged. |
| Buffers.InitImageEmpty | util/pftest.c:40-42 | With width 0 or height 0, `initBuf` changes nothing. |
| Buffers.CmpBuf | util/pftest.c:52-68 | `cmpBuf` modifies nothing and returns 1 or 0. It returns 1 exactly when every pixel decodes to the gradient colour. It decodes all width x height pixels, even after a mismatch. |
| Buffers.InitThenMatches | util/pftest.c:36-68 | If the format round-trips, `initBuf` followed by `cmpBuf` with the same width, pitch, height and format accepts, whatever the buffer held before. |
| Trials.CopyPass | util/pftest.c:92-106 | The pass walks rows by their own pitches and pixels by their format's size. It leaves the destination as its old content with every pixel slot rewritten from the matching source pixel. |
| Trials.CopyStep | util/pftest.c:97-103 | One step of the pass: both slots of pixel (i, j) lie inside their buffers, and writing `setRGB` of the source pixel's colour into the destination slot extends the pass by exactly that pixel. |
| Trials.PassImageAt | util/pftest.c:97-103 | After the pass, destination pixel (i, j) at `j*dstPitch + i*dstpf.size` holds `setRGB` of the colour that `getRGB` decodes from source pixel (i, j) at `j*srcPitch + i*srcpf.size`. |
| Trials.PassImageSrcPixels | util/pftest.c:101 | The pass reads only the source's pixel slots. Two sources that agree on those slots give the same destination, so the source's row padding does not matter. |
| Trials.ConversionValidates | util/pftest.c:80-106 | If both formats round-trip, a source filled by `initBuf` and copied by the pass into a zeroed destination decodes, at the destination pitch, to the gradient. |
| Trials.Prepare | util/pftest.c:73-106 | The source is allocated and filled before the destination is allocated. A failed malloc stops the trial with only the earlier buffers allocated. The destination is zeroed and then converted. |
| Trials.Release | util/pftest.c:130-132 | On the exit path, the log is the allocations followed by one free per allocation, in the same order. The allocated buffers are distinct, so each is freed exactly once, and no other buffer is freed. |
| Trials.DoTest | util/pftest.c:71-134 | `doTest` as written returns -1 when an allocation fails or when validation with stride `width*dstpf.size` rejects the destination, and 0 otherwise. On every path the log is exactly the successful mallocs (the source, then the destination only if the source succeeded) followed by one free of each, in that order. |
| Trials.DoTestPadded | util/pftest.c:71-134 | The same trial, with the destination validated at its own padded pitch. |
| Trials.PaddedTrialSucceeds | util/pftest.c:73-83 | With both allocations successful and both formats round-tripping, the trial validated at the padded pitch returns 0. |
| Trials.AlignedStrideIsPitch | util/pftest.c:121 | When a row's byte count is already a multiple of 4, the unpadded stride equals the padded pitch. |
| Trials.Width1024StridesAgree | util/pftest.c:150 | At `main`'s width of 1024, the as-written validation and the padded one give the same result, for any formats and allocation outcomes. |
| Trials.UnpaddedStrideRejectsValidImage | util/pftest.c:121 | As written, a 1 x 2 trial between 3-byte RGB formats returns -1 although the conversion is correct. |
| Trials.PaddedStrideAcceptsSmallImage | util/pftest.c:121 | The same 1 x 2 trial validated at the padded pitch returns 0. |
| Sweeps.PairsRowMajor | util/pftest.c:164-169 | The sweep visits pair number k as (k / n, k mod n). That is row-major order over source, then destination, with each ordered pair visited once. |
| Sweeps.PairFailsOnlyOnMalloc | util/pftest.c:170 | With round-tripping formats, a pair's trial returns -1 exactly when one of its allocations fails. |
| Sweeps.RunPair | util/pftest.c:169-170 | Running the as-written `doTest` on a pair returns 0 or -1. At `main`'s width, this is the pair's outcome under the intended validation. |
| Sweeps.SweepRow | util/pftest.c:167-172 | The inner loop tests destinations in order. It stops right after the first pair that returns -1. Otherwise it tests the whole row, and every pair in the row passed. With round-tripping formats and no allocation failure, it never stops early. |
| Sweeps.Sweep | util/pftest.c:164-177 | The sweep always returns 0 and tests only pairs of the first PIXELFORMATS-1 formats. The pairs it tests are a prefix of the row-major order, and every tested pair except the last succeeded. If the sweep stops early, its last pair returned -1. With round-tripping formats and no allocation failure, it tests every pair. |

## Left out

- The timing loop is left out because it is wall-clock and floating-point behaviour. This covers `getTime`, `testTime`, `elapsed`, the iteration count and the Mpixels/sec figure. The model performs one conversion pass.
- Repeated passes are not modelled. The timed loop at util/pftest.c:90-108 runs the pass again over destination slots that it already wrote, but the model runs it once, onto a zeroed destination. `RoundTrips` covers only a zeroed slot. So `Trials.PaddedTrialSucceeds`, `Sweeps.PairFailsOnlyOnMalloc` and the last guarantee of `Sweeps.Sweep` hold for one pass only. A format whose `setRGB` keeps bits of the slot's old bytes could validate after one pass and fail after several in the real program.
- The bulk `pf_convert` mode (`getSetRGB == 0`) is a foreign call into `pf.h`, which is not part of this model. `DoTest` models the `-getsetrgb` path.
- `pf.h`, `pf_get` and `PIXELFORMATS` are not part of this model. The format catalog is a parameter of `Sweep`. Each format's accessors are abstract functions, constrained only by `WellFormed` and, in the lemmas, by `RoundTrips`.
- `RoundTrips` is an assumption about the catalog. It is stated for a zeroed slot, which is how `initBuf` uses `setRGB`. In its single modelled run, the per-pixel pass encodes into a slot that the zeroing `memset` left at 0.
- Command-line parsing is left out: `usage`, `stricmp`, `atof` and `exit`.
- All `printf` output is left out, including the blank line after each source format. `Sweep`'s `tested` list stands in for the pairs that were reported.
- `malloc` is reduced to a success flag for each buffer. The proofs treat a fresh array's contents as arbitrary, like C's uninitialised memory. The destination is zeroed by `memset` before use. `InitImageAt` and `PassImageSrcPixels` show that the source's old contents do not affect the result, so `PerPixelResult` states the result with a zeroed source.
- C `int` overflow is left out. The model uses unbounded integers and requires each row's byte count to be at most 0x7FFFFFFC, where `BMPPAD` cannot overflow. Products such as `pitch*height` and `i*256` are not bounded. They are small at 1024 x 768.
- Negative widths and heights are excluded by `nat`. The only caller passes 1024 x 768.
- InitBuf, CmpBuf, CopyPass: these require that a row of pixels fits in the pitch and that the buffer holds `height` rows. `doTest` always meets this. Other geometries never reach these functions. The C code would still run on some of them (overlapping rows, a short last row), and the model does not cover those.
- Buffers.CmpBuf: the count of decoded pixels is a ghost output. It records that the scan never stops early, but it is not part of the C interface.

## Findings

| source | as written | input that shows it | evidently intended | confidence | as-written member | corrected member |
|---|---|---|---|---|---|---|
| util/pftest.c:121 | The destination is validated with row stride `width*dstpf.size`, but it was filled with the padded pitch `dstPitch`. | width 1, height 2, a 3-byte RGB format on both sides (`dstPitch` 4). Row 1 starts at byte 4. The check reads it at byte 3 and decodes (0, 0, 128) instead of (0, 128, 128), so `doTest` returns -1 for a correct conversion. At `main`'s width of 1024 every row is a multiple of 4 bytes and the two strides coincide. | Validate with `dstPitch`. | high for the arithmetic, not executed | Trials.UnpaddedStrideRejectsValidImage | Trials.DoTestPadded |

`Sweeps.Sweep` runs the as-written `Trials.DoTest`, as `main` does. Each pair's outcome is specified by the corrected validation (`Sweeps.PairOutcome`). `Trials.Width1024StridesAgree` shows that at the width `main` uses, the corrected and the as-written `doTest` return the same value.
