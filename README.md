# LED strip controller core, modelled in Dafny

This project models the sequential core of a Rust LED-strip controller. The controller renders frames from audio features, remaps them onto the physical wiring of four strips, and encodes them for APA102 LEDs. The model has three parts, each in the form the Rust code takes:

- **`Apa102`** (`apa102.dfy`): the APA102 wire buffer.
  - `Apa102` is a class that owns a byte array.
  - The constructor allocates the buffer: a 4-byte zero start frame, one 4-byte record per LED, and an end-frame region of `6 + length/16` bytes whose first byte is 0xFF.
  - `Update` rewrites the LED records in place, in a loop. Each record is brightness, blue, green, red.
  - `Update` is proved against the specification function `Encode`. Lemmas about `Encode` state:
    - the record layout;
    - that framing is preserved;
    - idempotence;
    - that the result depends only on the frame prefix.
- **`StripTransform`** (`transform.dfy`, with sequence helpers in `seq_util.dfy`): the strip topology transform.
  - `New` is the validating constructor. `Apply` is the pure concatenation of (possibly reversed) segments.
  - `Apply`'s own contract gives its length. Lemmas give each output element, each output segment, the identity case and the permutation property.
  - `WritePixel` is a method that writes one element of the caller's array, using the index formula exactly as the source has it. Lemmas relate a write followed by `Apply`.
  - A sanity lemma covers the program's own wiring.
- **`Visualizer`** (`visualizer.dfy`): the render side, with floats modelled as reals.
  - Rust's saturating float-to-`usize` cast is `AsUsize`.
  - Index selection: `SampleIndex`/`F` for the 2048-entry sigmoid table and `HueIndex`/`ValueIndex`/`Lookup` for the 360×256 colour table. The table entries are left opaque.
  - `Visualize` is the nested-loop fill of a `length * width` frame at slot `j * length + i`. It is proved against `Pixel`, the per-slot colour. `(i, j) ↦ j * length + i` is shown to be a bijection onto the frame.
  - Each pixel gets its bin's own energy `energy[j]` and its own phase `ws * i` as the second and third `get_hsv` arguments. Only the first argument, `scales[j] * (amp - 1)`, is 0 everywhere when every amplitude is 1. So a frame of uniform input is uniform exactly when `get_hsv(0, energy[j], ws * i)` gives the same colour for every `i` and `j`.
  - `OnSendError` is the render loop's reaction to a failed non-blocking send. `RenderLoop` is that loop over a sequence of send outcomes.

## Model

| member | source | states |
|---|---|---|
| Apa102.BrightnessByte | src/apa102.rs:36 | The brightness byte is `0xE0 & a`. Its low five bits are always zero, it is 0 for every alpha up to 31, and it keeps exactly the top three bits of alpha. |
| Apa102.CorrectedBrightnessByte | src/apa102.rs:36 | The byte the APA102 record header calls for, `0xE0 \| a`: its top three bits are always set, its low five bits are those of `a`, and for `a <= 31` they equal `a`. |
| Apa102.BrightnessEnds | src/apa102.rs:36 | Alpha 31 and alpha 0 give 0xFF and 0xE0 with the corrected byte, and 0x00 for both as written. |
| Apa102.Encode | src/apa102.rs:33-40 | The buffer that the `update` loop leaves. It keeps its length, and every byte outside the LED-record region `4` .. `4(length+1)-1` is the old one. The record bytes themselves are stated by EncodeRecord and EncodeStep. |
| Apa102.EncodeRecord | src/apa102.rs:33-39 | After encoding, the bytes at `4(i+1)` .. `4(i+1)+3` are `0xE0 & a`, `b`, `g`, `r` of pixel `i`, and the buffer keeps its length. |
| Apa102.EncodeStep | src/apa102.rs:34-39 | Encoding one more pixel `i` writes exactly its four record bytes at `4(i+1)` .. `4(i+1)+3` and leaves every other byte as it was. |
| Apa102.EncodeKeepsFraming | src/apa102.rs:31-41 | Encoding changes no byte outside the LED-record region: the start frame, the 0xFF byte and the rest of the end frame stay as they were, so a framed buffer stays framed. |
| Apa102.EncodeIdempotent | src/apa102.rs:33-40 | Encoding the same frame a second time leaves the buffer as the first encoding did. |
| Apa102.EncodeDependsOnlyOnPrefix | src/apa102.rs:33-40 | Two buffers that agree outside the LED region, encoded from frames with the same first `length` pixels, come out equal. The old LED records and the later pixels do not matter. |
| Apa102.Apa102.constructor | src/apa102.rs:19-29 | The buffer is fresh and has `4(length+1) + 6 + length/16` bytes. The byte at `4(length+1)` is 0xFF and every other byte is 0. Requires `length < 16383`, the range in which the 16-bit size arithmetic does not overflow. |
| Apa102.Apa102.Update | src/apa102.rs:31-41 | Needs at least `length` pixels, since `frame[i]` is read for each `i < length`. The new buffer is `Encode` of the old buffer and the frame, and the framing invariant is kept. |
| Apa102.Apa102.WriteRecords | src/apa102.rs:33-40 | The `for` loop of `update`. It leaves the buffer equal to `Encode` of its old contents. The loop invariant is that after `i` rounds the buffer is `Encode` of the first `i` pixels. |
| Apa102.Apa102.WriteRecord | src/apa102.rs:36-39 | One loop round. It writes `0xE0 & a`, `b`, `g`, `r` at `idx` .. `idx+3` and changes no other byte. |
| Apa102.Apa102.GetBuffer | src/apa102.rs:43-45 | The returned bytes are framed and have the full buffer length. |
| StripTransform.New | src/transform.rs:12-23 | Succeeds exactly when `reversed` and `xMap` both have `numStrips` entries (otherwise the source panics). On success the fields are the arguments. |
| StripTransform.Apply | src/transform.rs:25-42 | `apply` concatenates, for each logical strip `x` in order, input segment `xMap[x]`, reversed when `reversed[x]`. When every segment `l*xMap[x] .. l*(xMap[x]+1)` lies inside the input, the output has `numStrips * stripLength` pixels; the lemmas below give each pixel and segment. |
| StripTransform.ApplyAt | src/transform.rs:28-41 | Output pixel `l*x + k` is input pixel `l*xMap[x] + k`, or `l*xMap[x] + (l-1-k)` when strip `x` is reversed. |
| StripTransform.ApplySegment | src/transform.rs:29-39 | Output segment `x` is input segment `xMap[x]`, reversed exactly when `reversed[x]` is set. |
| StripTransform.ApplyIdentity | src/transform.rs:25-42 | With the identity map and no reversed strip, the output is the first `numStrips * stripLength` input pixels unchanged. |
| StripTransform.ApplyPermutes | src/transform.rs:28-41 | When `xMap` is a permutation of `0 .. numStrips` and the input holds exactly `numStrips` segments, the output is a permutation (same multiset) of the input. |
| StripTransform.PixelIndex | src/transform.rs:58-59 | The index `l*xMap[x] + (rev ? l - y : y)` lies in physical segment `xMap[x]` or on the first pixel after it, and it is that first pixel after the segment exactly when the strip is reversed and `y = 0`. |
| StripTransform.WritePixel | src/transform.rs:50-61 | Fails with InvalidAddress exactly when `x` or `y` is outside the layout, and fails with IndexOutOfBounds when the computed index is past the frame (both are panics in the source under overflow-checked arithmetic). Otherwise it sets exactly `frame[l*xMap[x] + (rev ? l - y : y)]` and changes nothing else. |
| StripTransform.WriteThenApplyForward | src/transform.rs:58-60 | On a strip that is not reversed, a point write at `(x, y)` followed by `Apply` puts the colour at output position `l*x + y`. |
| StripTransform.WriteThenApplyReversed | src/transform.rs:59 | On a reversed strip with `y >= 1`, the written colour appears at output position `l*x + (y-1)`, one place before the addressed pixel. |
| StripTransform.WriteThenApplyReversedMisses | src/transform.rs:59 | On a reversed strip with `y >= 1`, output position `l*x + y` is unchanged by the write. |
| StripTransform.WriteReversedAtZero | src/transform.rs:59 | On a reversed strip, a write at `y = 0` targets `l*(xMap[x]+1)`, the first pixel of the next physical segment. |
| StripTransform.CorrectedPixelIndex | src/transform.rs:59 | The index `apply` reads output pixel `y` of strip `x` from, `l*xMap[x] + (rev ? l-1-y : y)`. It always lies inside segment `xMap[x]`. It is the as-written index on a forward strip and one less on a reversed strip. |
| StripTransform.CorrectedWriteThenApply | src/transform.rs:58-60 | With the corrected index, a write to any addressable `(x, y)` stays inside every frame `apply` accepts. After `apply` the colour is at `l*x + y`, on reversed strips as well. |
| StripTransform.ProgramWiringAccepted | src/main.rs:161 | The program's wiring (4 × 144, reversed `[F,T,F,T]`, map `[0,2,1,3]`) is accepted by `New`. |
| StripTransform.ProgramWiringPermutes | src/main.rs:161 | Under the program's wiring, every 576-pixel frame maps to 576 pixels that form a permutation of it. |
| StripTransform.ProgramWiringSegments | src/main.rs:161 | Under the program's wiring, output strip 1 is input segment 2 reversed and output strip 2 is input segment 1. |
| StripTransform.ProgramWiringOverrun | src/main.rs:161 | A write at strip 3, pixel 0 passes the address check but targets index 576, one past the end of a 576-pixel frame. |
| Visualizer.AsUsize | src/visualizer.rs:273 | `as usize` on a float: 0 for non-positive inputs, `usize::MAX` from `usize::MAX` up, and otherwise the largest integer not above the input. |
| Visualizer.AsUsizeMonotone | src/visualizer.rs:273 | The cast never decreases as its input grows. |
| Visualizer.SampleIndex | src/visualizer.rs:267-276 | The index read is always in `[0, 2048)`. It is 2047 for `x >= 10`, 0 for `x <= -10`, exactly 1024 for every `x` in `(-10, 0)`, and for `x` in `[0, 10)` the sample at or just below `x`. |
| Visualizer.F | src/visualizer.rs:267-276 | `f` returns `lut[2047]` for `x >= 10`, `lut[0]` for `x <= -10` and `lut[1024]` for `x` in `(-10, 0)`. |
| Visualizer.SampleIndexMonotone | src/visualizer.rs:273 | The selected index is non-decreasing in `x`. |
| Visualizer.FMonotone | src/visualizer.rs:267-276 | Over a non-decreasing table, `f` is non-decreasing. |
| Visualizer.NegativeInputsReadMidpoint | src/visualizer.rs:273 | Every `x` in `(-10, 0)` reads the sample taken at 0, which lies above `x`, so `f(x) == f(0)`. |
| Visualizer.FlooredSampleIndex | src/visualizer.rs:268-274 | The floored index: below 2048, 2047 and 0 at the clamp ends, the sample interval containing `x` on all of `(-10, 10)`, and equal to `SampleIndex` for `x >= 0`. |
| Visualizer.NegativeSampleMisread | src/visualizer.rs:273 | At `x = -5`, the sample point of index 512, the lookup as written reads index 1024 (the sample at 0), and the floored index reads 512. |
| Visualizer.HueIndex | src/visualizer.rs:305 | The row is below 360. It is 0 for every non-positive hue, and for a hue in `[0, 1)` it is the truncation of `h * 360`. |
| Visualizer.ValueIndex | src/visualizer.rs:306-307 | The column is at most 255. It is 255 for `v >= 1` and 0 for `v < 1/256` (negative `v` included), and for `v` in `[0, 1)` it is the truncation of `v * 256`. |
| Visualizer.Lookup | src/visualizer.rs:304-309 | The lookup reads row `HueIndex(h)`, column 255 when `v >= 1` and column 0 when `v < 0`, and reads row 0 for every non-positive hue. |
| Visualizer.HueOneTurn | src/visualizer.rs:305 | Below the saturation point, adding one full turn to a non-negative hue selects the same row. |
| Visualizer.NegativeHueSelectsRowZero | src/visualizer.rs:305 | Negative hues are not wrapped: hue -0.25 selects row 0 while the equivalent hue 0.75 selects row 270. |
| Visualizer.SaturatedHue | src/visualizer.rs:305 | A hue whose scaled value reaches `usize::MAX` selects row `usize::MAX % 360 = 15`. |
| Visualizer.WrappedHueIndex | src/visualizer.rs:305 | The wrapped row `floor(360h) mod 360`: below 360, and equal to `HueIndex` wherever `360h` lies in `[0, usize::MAX)`. |
| Visualizer.WrappedHueOneTurn | src/visualizer.rs:305 | Adding one turn to any hue, negative ones included, selects the same wrapped row. |
| Visualizer.NegativeHueWraps | src/visualizer.rs:305 | Hues -0.25 and 0.75 both select wrapped row 270. As written, -0.25 selects row 0 and 0.75 selects row 270. |
| Visualizer.SlotInRange | src/visualizer.rs:194-201 | Slot `j*length + i` of a pair with `i < length`, `j < width` lies inside the `length*width` frame. |
| Visualizer.SlotsInRange | src/visualizer.rs:194-201 | Every pair's slot lies inside the frame. |
| Visualizer.SlotsDiffer | src/visualizer.rs:194-201 | Distinct pairs have distinct slots, so no slot is written twice. |
| Visualizer.SlotCovers | src/visualizer.rs:187-201 | Every position `k` of the frame is the slot of the pair `(k % length, k / length)`, so the slot map covers the frame. |
| Visualizer.Visualize | src/visualizer.rs:181-206 | Returns `length*width` pixels. For every `i < length`, `j < width`, the pixel at `j*length + i` is `get_hsv(scales[j] * (amp_i[j] - 1), energy[j], ws * i)`. |
| Visualizer.FrameCovered | src/visualizer.rs:187-205 | In a frame of that shape every pixel `k` is the colour of the pair `(k % length, k / length)`; no pixel keeps the zero initial value by being skipped. |
| Visualizer.OnSendError | src/visualizer.rs:164-176 | The loop continues exactly when the channel was full, and stops on any other send error. |
| Visualizer.RenderLoop | src/visualizer.rs:159-177 | Frame `k` is rendered exactly when no earlier send found the receiver disconnected. It is delivered exactly when it was rendered and its send succeeded. Delivered frames are strictly increasing, so none is reordered or repeated. |

## Findings

In each case below the operations follow the code as written. A corrected definition stands beside the as-written one, with the intended property proved about it.

| source | as written | input that shows it | evidently intended | confidence | as-written member | corrected member |
|---|---|---|---|---|---|---|
| src/apa102.rs:36 | The brightness byte is `0xE0 & a`. That clears the 5-bit brightness field and makes the three marker bits depend on alpha. | Alpha 31 encodes as 0x00, where the APA102 header for full brightness is 0xFF. | `0xE0 \| a`: marker bits set, brightness kept. Alpha 31 gives 0xFF, alpha 0 gives 0xE0. | high; not executed | Apa102.BrightnessByte, Apa102.BrightnessEnds | Apa102.CorrectedBrightnessByte |
| src/transform.rs:59 | A reversed strip writes at offset `l - y`, but `apply` reads output pixel `y` from offset `l - 1 - y`. | On a reversed strip, `y = 1` shows at output `l*x + 0` and `l*x + 1` keeps its old value. `(3, 0)` on the program's wiring targets index 576 of a 576-pixel frame. | `l - 1 - y`, so the colour shows at output `l*x + y` on every strip and the write stays inside the frame. | high; not executed | StripTransform.PixelIndex, StripTransform.WriteThenApplyReversed, StripTransform.WriteThenApplyReversedMisses, StripTransform.ProgramWiringOverrun | StripTransform.CorrectedPixelIndex, StripTransform.CorrectedWriteThenApply |
| src/visualizer.rs:273 | `(x * SCALE) as usize` saturates negative products to 0. | `x = -5` reads index 1024, the sample at 0, instead of index 512, the sample at -5. | `floor(x * SCALE) + SIZE/2`: every `x` in `(-10, 10)` reads the sample at or just below it. | high; not executed | Visualizer.SampleIndex, Visualizer.NegativeInputsReadMidpoint, Visualizer.NegativeSampleMisread | Visualizer.FlooredSampleIndex |
| src/visualizer.rs:305 | `(h * 360) as usize % 360` saturates every negative hue to row 0. | `h = -0.25` selects row 0, while the same angle as `h = 0.75` selects row 270. | `floor(360h) mod 360`: one full turn, added to any hue, selects the same row. | medium, because whether `get_hsv` yields negative hues depends on the audio crate's energies; not executed | Visualizer.HueIndex, Visualizer.NegativeHueSelectsRowZero | Visualizer.WrappedHueIndex, Visualizer.WrappedHueOneTurn, Visualizer.NegativeHueWraps |

## Left out

- Audio capture, the sliding FFT, the bucketer and the frequency sensor are foreign code from the `audio` crate. `Visualize` takes their outputs (scales, energy, amplitudes) as sequences.
- Threads, channels and the SPI output loop are left out. `RenderLoop` takes the sequence of send outcomes as input, and the blocking receive that ends the loop when the sender closes shows up only as the end of that sequence.
- `get_hsv` and its float arithmetic (hue, value and alpha formulas, float-to-`u8` casts) are left out. `Visualize` takes it as a function parameter `hsv`.
- `ws = 2π / length` is a parameter `ws`; π and the `f32` division are not modelled.
- Floating point is modelled as exact reals. `f32` rounding is not modelled, so `SCALE` is exactly 102.4 where `f32` holds 102.40000152…, and the products `x * SCALE`, `h * 360` and `v * 256` are exact.
- Table contents are opaque sequences. `Sigmoid::new` (the `exp` loop), `Clut::new` (`hsluv_to_rgb`) and `Clut::gamma` are left out.
- AsUsize: assumes a 64-bit target (`usize::MAX = 2^64 - 1`). NaN inputs are not modelled.
- Apa102.Apa102.constructor: `requires length < 16383` instead of modelling the 16-bit overflow that larger lengths cause in the size computation.
- StripTransform.WritePixel: follows overflow-checked (debug-build) arithmetic. The underflow of `num_strips - 1` or `l - 1` when either is zero is a panic there, and the model returns InvalidAddress.
- StripTransform.WritePixel: does not model a release build with `strip_length == 0`. There `l - 1` wraps to `usize::MAX` and the check at src/transform.rs:52 passes for every `x < num_strips`. On a strip that is not reversed `frame[y]` is written when `y` is inside the frame. On a reversed strip only `y = 0` writes (`frame[0]`), because `l - y` wraps for `y >= 1` and the index is then past the end.
- StripTransform.WritePixel: the `usize` product `l * xMap[x]` is an unbounded integer, so its overflow is not modelled.
- StripTransform.Apply: requires every addressed segment to lie inside the input (`Fits`) instead of modelling the slice panic.
- The panics of `Transform::new` and `write_pixel` are modelled as error outcomes (`Option`, `WriteOutcome`). Panic messages are not modelled.
- Apa102.Apa102.Update: the out-of-range `frame[i]` panic is a precondition (`requires length <= |frame|`), not an error outcome.
- Visualizer.Visualize: the out-of-range reads of the amplitudes, scales and energies are a precondition (`requires FeaturesCover`), not an error outcome.
- `display.rs` (the channel wrapper and its `Transform` trait) is not part of this model; `Apply` and `WritePixel` model the two trait methods directly.
- The commented-out double-buffer code in `apa102.rs`, the CLI and configuration structures, `Params::defaults`, and the `main` timing loops are left out.
