# Real-time edge detection: frame conversion, texture handoff and FPS counters

This project is a Dafny model of the sequential core of an Android camera app and its web viewer. The app streams camera frames through a YUV-to-RGBA converter and an external edge detector, then onto an OpenGL texture. The model covers four parts:

- **YuvUtils** (`yuv_utils.dfy`). A YUV_420_888 image becomes an NV21 byte array: the luma plane verbatim, then the chroma bytes. Each pixel of that array then becomes four RGBA bytes, using the BT.601 limited-range formula with truncation, clamping and alpha 255. Any read past a buffer throws in the app, and the camera callback then drops the frame. Here a throw is `None`.
- **Render** (`render.dfy`). The `GLRenderer` class holds the single `pendingFrame` slot. `updateFrame` overwrites the slot and `onDrawFrame` takes and clears it. `updateTexture` reallocates the staging buffer and texture storage only when the buffer is missing or the frame size changes; otherwise it only uploads a sub-image. The GL calls are recorded in fields: a reallocation count, the current texture's storage size, an upload log and a draw count.
- **Throughput**, **Activity**, **Web** (`throughput.dfy`, `activity.dfy`, `web.dfy`). The rolling one-second FPS window is shared by `MainActivity.updateFps` (exact ratio) and the web viewer's `tick` (`Math.round` of the ratio). Each is a class method whose clock reading is a parameter. Both are tied to one specification function, `Throughput.Advance`, and its fold `Throughput.Run`.
- **Bytes**, **Arith** (`bytes.dfy`). The byte type (by unsigned value), `Option`, zero-filled buffers and a multiplication fact.

Colour coefficients are exact, scaled by 1000 (`1164 * (y - 16) + 1596 * (v - 128)` …). `Float.toInt()` is truncation toward zero. `j shr 1` is `j / 2`, and `i and 1.inv()` is `i - i % 2`, since both indices are non-negative.

## Model

| member | source | states |
|---|---|---|
| `YuvUtils.Interleaved` | app/src/main/java/com/example/realtime/YuvUtils.kt:37-43 | the interleaved layout exists iff every read and write of the loop fits (`DeinterleaveFits`); it keeps the allocation size `ySize + uSize + vSize` and the luma bytes verbatim |
| `YuvUtils.Nv21AsWritten` | app/src/main/java/com/example/realtime/YuvUtils.kt:27-43 | the NV21 layout as written: stride 1 never fails; whenever it exists, it has `ySize + uSize + vSize` bytes and starts with the Y plane |
| `YuvUtils.Nv21Corrected` | app/src/main/java/com/example/realtime/YuvUtils.kt:37-43 | the corrected layout, with `SampleCount` iterations: whenever it exists, it has `ySize + uSize + vSize` bytes and starts with the Y plane (its bytes: `InterleavedPairAt`) |
| `YuvUtils.CopyInto` | app/src/main/java/com/example/realtime/YuvUtils.kt:29-36 | a bulk `get` into nv21 places the plane's bytes at the given offset and leaves every other byte alone |
| `YuvUtils.Deinterleave` | app/src/main/java/com/example/realtime/YuvUtils.kt:37-43 | the `pos++` loop succeeds iff every read `k * stride` is inside both chroma buffers and every write fits (`2 * count <= uSize + vSize`); on success, bytes `start + 2k` and `start + 2k + 1` hold V then U of sample k and nothing else changes |
| `YuvUtils.Nv21FromPlanes` | app/src/main/java/com/example/realtime/YuvUtils.kt:23-44 | NV21 assembly as written: Y plane verbatim, then for stride 1 the V plane and the U plane verbatim, otherwise `uSize` de-interleaving iterations; fails exactly where the source throws |
| `YuvUtils.InterleavedPairAt` | app/src/main/java/com/example/realtime/YuvUtils.kt:37-43 | on success, `nv21[ySize + 2k] == v[k * s]` and `nv21[ySize + 2k + 1] == u[k * s]`, and the first ySize bytes are the Y plane |
| `YuvUtils.StrideTwoAlwaysThrows` | app/src/main/java/com/example/realtime/YuvUtils.kt:40-41 | as written, every stride >= 2 with uSize >= 2 reads past the U buffer, so the frame is always dropped |
| `YuvUtils.PlanarCopyMisplacesU` | app/src/main/java/com/example/realtime/YuvUtils.kt:34-36 | as written, stride 1 puts `v[1]` at NV21 position `ySize + 1`, the byte after the first V sample; the corrected layout puts `u[0]` there |
| `YuvUtils.SampleCount` | app/src/main/java/com/example/realtime/YuvUtils.kt:40-41 | the corrected loop bound: every sample index below it lies inside the buffer, and it covers the whole buffer (`n * stride >= size`) |
| `YuvUtils.Nv21FromPlanesFixed` | app/src/main/java/com/example/realtime/YuvUtils.kt:37-43 | corrected NV21 assembly: one V,U pair per chroma sample for every stride; result equals `Nv21Corrected` and fails exactly where it throws |
| `YuvUtils.CorrectedNeverThrows` | app/src/main/java/com/example/realtime/YuvUtils.kt:39-43 | the corrected assembly never throws when the V buffer is at least as long as the U buffer |
| `YuvUtils.StridesAgree` | app/src/main/java/com/example/realtime/YuvUtils.kt:33-43 | planar (stride 1) and interleaved (stride 2) buffers holding the same samples give the same NV21 bytes up to the end of the chroma pairs |
| `YuvUtils.RedSum` | app/src/main/java/com/example/realtime/YuvUtils.kt:60 | the red channel before truncation, scaled by 1000: the luma term alone at neutral V, and within [-222912, 480888] for all bytes |
| `YuvUtils.GreenSum` | app/src/main/java/com/example/realtime/YuvUtils.kt:61 | the green channel before truncation, scaled by 1000: the luma term alone at neutral chroma, and bounded for all bytes |
| `YuvUtils.BlueSum` | app/src/main/java/com/example/realtime/YuvUtils.kt:62 | the blue channel before truncation, scaled by 1000: the luma term alone at neutral U, and bounded for all bytes |
| `YuvUtils.TruncScaled` | app/src/main/java/com/example/realtime/YuvUtils.kt:60-62 | `toInt()` of a channel sum over 1000 is the quotient truncated toward zero (bounds on both signs) |
| `YuvUtils.Clamp` | app/src/main/java/com/example/realtime/YuvUtils.kt:64-66 | `coerceIn(0, 255)` gives the byte value nearest to its argument, and leaves in-range values unchanged |
| `YuvUtils.TruncateThenClampIsFloor` | app/src/main/java/com/example/realtime/YuvUtils.kt:60-66 | after clamping, truncation toward zero and floor division give the same channel value |
| `YuvUtils.ConvertPixel` | app/src/main/java/com/example/realtime/YuvUtils.kt:60-72 | every converted pixel has alpha 255 |
| `YuvUtils.BlackPoint` | app/src/main/java/com/example/realtime/YuvUtils.kt:60-72 | y = 16, u = v = 128 gives (0, 0, 0, 255) |
| `YuvUtils.WhitePoint` | app/src/main/java/com/example/realtime/YuvUtils.kt:60-72 | y = 235, u = v = 128 gives (254, 254, 254, 255) |
| `YuvUtils.NeutralChromaIsGrey` | app/src/main/java/com/example/realtime/YuvUtils.kt:60-66 | neutral chroma gives r = g = b, non-decreasing in luma |
| `YuvUtils.ChromaIndex` | app/src/main/java/com/example/realtime/YuvUtils.kt:57-58 | the V byte of every pixel lies in the chroma region, at or after frameSize |
| `YuvUtils.BlockSharesChroma` | app/src/main/java/com/example/realtime/YuvUtils.kt:57-58 | the four pixels of an aligned 2×2 block read the same V and U bytes |
| `YuvUtils.ChromaPairOfPixel` | app/src/main/java/com/example/realtime/YuvUtils.kt:57-58 | on an even width, pixel (i, j) reads chroma pair `(j/2) * (w/2) + i/2`, the one its 2×2 block owns |
| `YuvUtils.PixelAt` | app/src/main/java/com/example/realtime/YuvUtils.kt:56-66 | the pixel at row-major position p: opaque, and grey when both of its chroma bytes are 128 (its read positions: `RgbaAtPixel`) |
| `YuvUtils.RgbaImage` | app/src/main/java/com/example/realtime/YuvUtils.kt:50-77 | the array nv21ToRGBA returns: `w*h*4` bytes and every fourth byte (alpha) 255 |
| `YuvUtils.StorePixel` | app/src/main/java/com/example/realtime/YuvUtils.kt:68-72 | writes the four bytes of one pixel at `p*4 .. p*4+3` and nothing else |
| `YuvUtils.ConvertRow` | app/src/main/java/com/example/realtime/YuvUtils.kt:55-73 | the inner loop over one row converts every pixel of that row in order, or stops at the first read that leaves nv21, which means the whole frame is not readable |
| `YuvUtils.Nv21ToRgba` | app/src/main/java/com/example/realtime/YuvUtils.kt:50-77 | the pixel loop fails iff some read leaves nv21; otherwise the output equals `RgbaImage`, of length `w*h*4` |
| `YuvUtils.RgbaAtPixel` | app/src/main/java/com/example/realtime/YuvUtils.kt:54-72 | pixel (i, j) takes luma from `nv21[j*w+i]` and V, U from `ChromaIndex`, and its channel c is output byte `(j*w+i)*4+c` |
| `YuvUtils.OpaqueAlpha` | app/src/main/java/com/example/realtime/YuvUtils.kt:68-72 | byte `(j*w+i)*4+3` of the output is 255 for every pixel |
| `YuvUtils.ByteWrittenOnce` | app/src/main/java/com/example/realtime/YuvUtils.kt:68-72 | distinct (pixel, channel) pairs write distinct output bytes |
| `YuvUtils.ByteHasOwner` | app/src/main/java/com/example/realtime/YuvUtils.kt:51-72 | every byte of the `w*h*4` output is written by some pixel of the frame |
| `YuvUtils.LastPixelReadsFurthest` | app/src/main/java/com/example/realtime/YuvUtils.kt:54-58 | no pixel's V byte lies after the last pixel's |
| `YuvUtils.PixelChromaAtMostLast` | app/src/main/java/com/example/realtime/YuvUtils.kt:54-58 | the V byte of any pixel in the frame lies no further than the last pixel's |
| `YuvUtils.ReadsInBoundsIffLastPixel` | app/src/main/java/com/example/realtime/YuvUtils.kt:54-58 | the conversion reads inside nv21 iff the last pixel's U byte is inside |
| `YuvUtils.ReadsInBoundsIffNv21Size` | app/src/main/java/com/example/realtime/YuvUtils.kt:50-58 | for even sizes the conversion needs exactly `w*h + w*h/2` bytes (both directions) |
| `YuvUtils.Yuv420ToRgbaAsWritten` | app/src/main/java/com/example/realtime/YuvUtils.kt:12-48 | as written: the whole conversion succeeds iff `Nv21AsWritten` exists and its reads stay in bounds, and then yields `RgbaImage` of that layout |
| `YuvUtils.Yuv420ToRgba` | app/src/main/java/com/example/realtime/YuvUtils.kt:12-48 | corrected: the whole conversion succeeds iff the NV21 assembly succeeds and its reads stay in bounds, and then yields `RgbaImage` of the NV21 array |
| `YuvUtils.WellFormedFrameConverts` | app/src/main/java/com/example/realtime/YuvUtils.kt:12-58 | corrected: a well-formed even-sized frame (full Y plane, `w*h/4` chroma samples per plane at any stride) converts without an exception |
| `YuvUtils.WellFormedFrameAsWritten` | app/src/main/java/com/example/realtime/YuvUtils.kt:12-58 | as written, the same well-formed frame converts at stride 1 (with misplaced chroma) and is always dropped at any stride >= 2 with two or more chroma samples |
| `YuvUtils.FirstPixel` | app/src/main/java/com/example/realtime/YuvUtils.kt:54-72 | the first output pixel takes luma from `nv21[0]`, V from `nv21[w*h]` and U from `nv21[w*h+1]` |
| `YuvUtils.PlanarFirstPixelReadsV` | app/src/main/java/com/example/realtime/YuvUtils.kt:34-58 | as written at stride 1 with a full luma plane, every channel of the first output pixel is computed with `v[1]` as its U value |
| `YuvUtils.PlanarFirstPixelReadsU` | app/src/main/java/com/example/realtime/YuvUtils.kt:34-58 | with the corrected layout, the same pixel is computed from `u[0]` and `v[0]` |
| `Render.GLRenderer.constructor` | app/src/main/java/com/example/realtime/GLRenderer.kt:11-18 | no staging buffer, size 0×0, empty slot, no GL calls yet |
| `Render.GLRenderer.OnSurfaceCreated` | app/src/main/java/com/example/realtime/GLRenderer.kt:22-26 | as written: a new texture without storage; the staging buffer and size are kept |
| `Render.GLRenderer.OnSurfaceCreatedFixed` | app/src/main/java/com/example/realtime/GLRenderer.kt:22-26 | corrected: also drops the staging buffer, re-establishing that the texture storage matches the staged size |
| `Render.GLRenderer.UpdateFrame` | app/src/main/java/com/example/realtime/GLRenderer.kt:51-53 | the slot unconditionally holds the new frame |
| `Render.GLRenderer.UpdateTexture` | app/src/main/java/com/example/realtime/GLRenderer.kt:55-81 | reallocates iff there is no buffer or the size differs; then `frameWidth == w`, `frameHeight == h`, capacity `w*h*4`; put overflows iff `bytes.size > w*h*4`, otherwise the staged bytes are `bytes` followed by the previous (or zero) tail and one `w × h` upload is logged; texture/storage agreement is kept |
| `Render.GLRenderer.OnDrawFrame` | app/src/main/java/com/example/realtime/GLRenderer.kt:32-45 | with a pending frame: stages it over the previous buffer (or zeros after a reallocation), logs one upload of the whole staged buffer and empties the slot; if put overflows, the slot and the staged bytes stay as they were; with none: buffer, size, storage and uploads unchanged; draws iff a staging buffer exists |
| `Render.ShowFrame` | app/src/main/java/com/example/realtime/GLRenderer.kt:36-44 | one frame handed over and drawn: the size is recorded, one upload of the frame is logged, the slot is empty, the draw count grows by one, and a reallocation happens iff the size changed |
| `Render.ShortFrameKeepsTail` | app/src/main/java/com/example/realtime/GLRenderer.kt:70-80 | a one-byte frame after a full 2×1 frame uploads `[7, 1, 1, 1, 1, 1, 1, 1]`: the previous frame's tail is kept |
| `Render.ReallocationsForSizeChange` | app/src/main/java/com/example/realtime/GLRenderer.kt:56-68 | frames of 640×480, 640×480, 320×240, 320×240 allocate storage exactly twice |
| `Render.LatestFrameWins` | app/src/main/java/com/example/realtime/GLRenderer.kt:36-53 | after two updateFrame calls only the second frame is ever uploaded, and a draw with nothing pending uploads nothing |
| `Render.SurfaceRecreationAsWritten` | app/src/main/java/com/example/realtime/GLRenderer.kt:22-26 | as written, after surface recreation a same-size frame is uploaded to texture 2, which has no storage |
| `Render.SurfaceRecreationFixed` | app/src/main/java/com/example/realtime/GLRenderer.kt:22-26 | corrected, the same run lands both uploads on allocated storage |
| `Throughput.Advance` | app/src/main/java/com/example/realtime/MainActivity.kt:82-89 | one call: a window closes iff at least 1000 ms have passed; the frames of the open and closed windows together grow by exactly one; a closed window records its length and the new one opens now |
| `Throughput.Run` | app/src/main/java/com/example/realtime/MainActivity.kt:81-96 | a run of calls closes at most one window per call and leaves the window alone when there are no calls |
| `Throughput.FramesConserved` | app/src/main/java/com/example/realtime/MainActivity.kt:82-88 | over any run of calls, the frames in closed windows plus the open count equal the starting count plus the number of calls |
| `Throughput.SamplesSpanAWindow` | app/src/main/java/com/example/realtime/MainActivity.kt:84-87 | every closed window counted at least one frame, using the just-incremented count, over at least 1000 ms |
| `Throughput.QuietWindow` | web/src/main.ts:18-22 | while less than 1000 ms have passed, nothing closes, the count grows by one per call and the start is kept |
| `Throughput.ThirtyFramesInOneSecond` | web/src/main.ts:18-26 | 30 calls whose 30th comes exactly 1000 ms after the window opened close one window of 30 frames over 1000 ms |
| `Activity.FpsOf` | app/src/main/java/com/example/realtime/MainActivity.kt:87 | the rate is `frames * 1000 / elapsed` exactly, never negative and never above the frame count |
| `Activity.MainActivity.constructor` | app/src/main/java/com/example/realtime/MainActivity.kt:24-26 | count 0, window opening at creation time, FPS 0, nothing posted |
| `Activity.MainActivity.UpdateFps` | app/src/main/java/com/example/realtime/MainActivity.kt:81-96 | one `Advance` of the window; a closed window sets currentFps (at most the count used) and posts it to the label, otherwise currentFps, lastFpsTime and the label are unchanged; FPS stays non-negative |
| `Activity.ThirtyUpdatesReadThirty` | app/src/main/java/com/example/realtime/MainActivity.kt:82-89 | 30 frames in one second read exactly 30.0 |
| `Web.RoundRatio` | web/src/main.ts:23 | `Math.round(p / q)`: the nearest integer, halves rounded up |
| `Web.RoundedFps` | web/src/main.ts:23 | a closed window's rounded rate lies between 0 and its frame count |
| `Web.RoundedAtMostFrames` | web/src/main.ts:23 | the rounded rate of a window of at least 1000 ms never exceeds the frames it counted |
| `Web.Viewer.constructor` | web/src/main.ts:10-12 | count 0, window opening at load time, FPS 0 |
| `Web.Viewer.Tick` | web/src/main.ts:17-30 | one `Advance` of the window; a closed window sets currentFPS and the displayed text, otherwise both are unchanged; currentFPS stays non-negative for any clock |
| `Web.ThirtyTicksShowThirty` | web/src/main.ts:18-26 | 30 ticks in one second show 30 |

`YuvUtils.Yuv420ToRgba` uses the corrected NV21 assembly (`Nv21FromPlanesFixed`). `YuvUtils.Yuv420ToRgbaAsWritten` composes the assembly as written (`Nv21FromPlanes`) with the same pixel conversion; see "## Findings".

## Left out

- CameraHelper.kt is not part of this model: Camera2 device and session callbacks, `ImageReader`, the handler thread and permission checks. A `None` from `Yuv420ToRgba` stands for the exception its listener catches, after which only that frame is dropped.
- NativeBridge.kt (the JNI edge detector) and `MainActivity.processFrame`, including its per-frame `thread { }` and the `frameCount % 30` log line. They are a foreign call and concurrency.
- The activity lifecycle, permission requests, Toasts, `onSurfaceChanged` (`glViewport` only) and the DOM, `requestAnimationFrame` and image handlers of main.ts. These are UI and platform plumbing.
- The `@Volatile` race in `onDrawFrame`: a frame written between the read of `pendingFrame` and its clearing is lost. The slot is modelled sequentially. Likewise, the UI runnable reads `currentFps` when it runs, not when it is posted.
- `genTexture`, `glTexImage2D`, `glTexSubImage2D`, `glClear` and `FullscreenQuad.draw` (FullscreenQuad is not part of this model) are not performed. Their effects are recorded in `GLRenderer` fields, and the texture name is a parameter of `OnSurfaceCreated`.
- What happens to the GL thread after `BufferOverflowException` leaves `onDrawFrame`. The model reports the overflow and stops there.
- IEEE `Float` rounding of the colour coefficients and of `frameCount * 1000f / elapsed`, and the `"%.1f"` formatting. Coefficients are exact rationals scaled by 1000, and the rate is a `real`.
- 32-bit `Int` overflow of `width * height * 4` and of the frame count. Integers are unbounded.
- Negative widths, heights or frame sizes (`ByteBuffer.allocateDirect` and `ByteArray` would throw): sizes are `nat`.
- `performance.now()` has fractional milliseconds. Clock readings are whole milliseconds.
- YuvUtils.Yuv420ToRgba: requires pixel stride >= 1, the range Android documents for `Image.Plane.getPixelStride`. It uses the corrected assembly, not the one as written.
- YuvUtils.WellFormedFrameConverts: holds of the corrected assembly only. As written, the same frame throws at every stride >= 2 (`WellFormedFrameAsWritten`).
- Row stride of the planes: the Y plane and chroma buffers are taken as their remaining bytes, as the source does, and row padding is not interpreted.

## Findings

| source | as written | input that shows it | evidently intended | confidence | as-written member | corrected member |
|---|---|---|---|---|---|---|
| app/src/main/java/com/example/realtime/YuvUtils.kt:40-41 | the interleaved branch loops `uSize` times and reads index `i * uvPixelStride` | pixel stride 2 with a U buffer of 2 or more bytes (every interleaved YUV_420_888 frame): the read at `(uSize - 1) * 2` is past the end, so every frame throws and is dropped | one iteration per chroma sample, `ceil(uSize / stride)` | high, not executed | `YuvUtils.StrideTwoAlwaysThrows`, `YuvUtils.WellFormedFrameAsWritten` (about `Nv21FromPlanes`) | `YuvUtils.Nv21FromPlanesFixed`, `YuvUtils.CorrectedNeverThrows` |
| app/src/main/java/com/example/realtime/YuvUtils.kt:34-36 | stride 1 copies the whole V plane and then the whole U plane | stride 1 with V = [v0, v1, …]: the byte the converter reads as U for the first 2×2 block is v1, not u0 | interleave V,U per sample, as NV21 needs and as the converter reads | high, not executed | `YuvUtils.PlanarCopyMisplacesU`, `YuvUtils.PlanarFirstPixelReadsV` (about `Yuv420ToRgbaAsWritten`) | `YuvUtils.Nv21FromPlanesFixed`, `YuvUtils.PlanarFirstPixelReadsU`, `YuvUtils.StridesAgree` |
| app/src/main/java/com/example/realtime/GLRenderer.kt:22-26 | `onSurfaceCreated` creates a new texture but keeps `frameBuffer`, `frameWidth`, `frameHeight` | a 640×480 frame, the surface recreated after GL context loss, then another 640×480 frame: no reallocation, and the sub-image goes to a texture without storage | the next frame reallocates the new texture | medium, not executed | `Render.SurfaceRecreationAsWritten` (about `GLRenderer.OnSurfaceCreated`) | `Render.GLRenderer.OnSurfaceCreatedFixed`, `Render.SurfaceRecreationFixed` |
