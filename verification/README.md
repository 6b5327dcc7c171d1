# Palette dithering core, modelled in Dafny

This project models the arithmetic core of a ditherer that reduces an RGB
image to a fixed palette of 244 map colours with Floyd–Steinberg error
diffusion. It covers four parts:

- the palette and its nearest-colour lookup (`colors.dfy`, src/colors.rs);
- the diffusion kernel and the saturating channel update (`convert.dfy`,
  src/convert.rs);
- the sequential converter (`single_threaded.dfy`,
  src/convert_single_threaded.rs);
- the channel-pipelined converter (`channels.dfy`,
  src/convert_channels.rs). Its one-worker-per-row design is modelled as a
  function of the original row and the messages from the row above. Row
  workers are composed one after the other.

`images.dfy` holds the image as a sequence of rows. `scenarios.dfy` works
through concrete images using the general lemmas.

Floating point is modelled with exact integers. All values in the source are
dyadic with small numerators:

- a residual `d` normalised by `/ 256.0`;
- a factor of `k/16`;
- a channel divided by 256.

Errors are therefore kept in units of 1/4096 and factors in sixteenths. The
value `channel / 256 + error * factor` becomes the integer
`256 * channel + error * factor` in units of 1/65536.

Four behaviours of the source are worth knowing:

- **Column-major order.** The sequential converter visits the pixels column by
  column (`x` outer, `y` inner). When a visit hands 3/16 of its residual
  down-left, that target pixel has already been quantised. Only row 0 and the
  last column are sure to end as palette colours. Every other pixel gets one
  more share after its own visit (`InteriorPixelReachedAgain`).
- **Message alignment.** In the channel converter, message `x` of a row is the
  kernel's whole contribution to column `x - 1` of the row below
  (`MessageIsDownTotal`). The worker below adds it at its own column `x`
  (`ReceivedIsLeftDownTotal`). The model states this shift but does not
  exhibit an image on which it changes the output.
- **One update per pixel.** A channel worker adds everything a pixel has
  received and applies it in one truncating, saturating update at factor 1.0
  (src/convert_channels.rs:68-71). The sequential converter truncates and
  clamps each share separately as it is handed on
  (src/convert_single_threaded.rs:32-42). This is a second reason the two
  converters need not agree pixel by pixel; no lemma compares the two
  updates. The converters do differ on the all-black
  2×2 image (`Scenarios.SchedulesDiffer`), but there the cause is the
  column-major order.
- **Spawn column.** A worker spawns its successor only at column 1. In an
  image one pixel wide, rows 1 and below are therefore returned unconverted
  (`ChannelNarrowRowsUnconverted`).

The colour closest to black is `(13, 13, 13)`, entry 115 of the table
(src/colors.rs:142), at squared distance 507. `(17, 17, 17)` is at 867.

## Model

| member | source | states |
|---|---|---|
| Colors.PaletteShape | src/colors.rs:7-271 | the colour list has exactly `COLOR_COUNT` = 244 entries, entry `j` being the `j`-th colour of the table; channels are 8-bit by type |
| Colors.FindClosest | src/colors.rs:278-292 | the residual is `input - answer` channel by channel, so answer plus residual rebuilds the input; every residual channel lies in [-255, 255]; the lookup is total |
| Colors.FindClosestIsNearest | src/colors.rs:278-281 | the answer is a palette entry whose squared distance to the input is no larger than that of any of the 244 entries; the tie-break is left open |
| Colors.FindClosestInPalette | src/colors.rs:278-292 | the colour answered is always a palette colour |
| Colors.NearestAmongIsNearest | src/colors.rs:281 | the scan standing in for the k-d tree query answers a colour at minimal distance among the entries scanned |
| Colors.NearestAmongInList | src/colors.rs:281 | the scan answers an entry of the list it scans |
| Colors.FixedPoint | src/colors.rs:278-292 | a palette colour is answered with itself and a zero residual |
| Colors.ZeroResidualIffInPalette | src/colors.rs:278-292 | the residual is zero exactly when the input is a palette colour (both directions) |
| Colors.NearestToBlack | src/colors.rs:26-271 | black is answered with `(13, 13, 13)` and residual -13 in every channel |
| Colors.WhiteInPalette | src/colors.rs:57 | white is a palette colour |
| Colors.Grey10NotInPalette | src/colors.rs:26-271 | `(10, 10, 10)` is not a palette colour |
| Converter.DistributeChannel | src/convert.rs:18-28 | a value of at least 1.0 saturates to 255, a value of at most 0.0 clamps to 0, otherwise the channel is the truncation of `256 * value`, which lies in 0..255 |
| Converter.ChannelsIndependent | src/convert.rs:18-19 | each output channel depends only on the same channel of the pixel and of the error; the other two channels have no influence on it |
| Converter.SixteenthsForm | src/convert.rs:20-26 | with the error a normalised residual `d` and factor `k/16`, the update is `(16c + k·d) div 16`, saturated to 0 and 255 |
| Converter.NoErrorUnchanged | src/convert.rs:18-28 | with zero error or zero factor every channel keeps its value |
| Converter.DistributeMonotone | src/convert.rs:20-27 | a larger `error * factor` or a larger starting channel never gives a smaller channel |
| Converter.KernelTargets | src/convert.rs:4-9 | the kernel aims at exactly the four offsets (1,0), (-1,1), (0,1), (1,1), with factors 7, 3, 5 and 1 sixteenths; every other offset gets factor 0 |
| Converter.KernelIsForward | src/convert.rs:4-9 | no target lies in an earlier row or to the left in the same row; all factors are positive |
| Converter.WeightsSumToOne | src/convert.rs:5-8 | 7/16 + 3/16 + 5/16 + 1/16 = 1 |
| Converter.Conservation | src/convert.rs:4-9 | the four shares of a residual add up to the whole normalised residual |
| Images.Set | src/convert_single_threaded.rs:26 | writing a pixel changes that pixel only and keeps the image's shape |
| SingleThreaded.DiffuseEffect | src/convert_single_threaded.rs:32-43 | after the propagation loop each pixel has received the error at the factor of its offset; targets outside the image are skipped and other pixels are unchanged |
| SingleThreaded.VisitEffect | src/convert_single_threaded.rs:20-43 | a visit replaces the pixel with the lookup of its current value; every other pixel receives the residual at its offset's factor and is unchanged off the four targets |
| SingleThreaded.ColumnMajor | src/convert_single_threaded.rs:18-19 | the visiting order has `width * height` positions, all inside the image |
| SingleThreaded.ColumnMajorSorted | src/convert_single_threaded.rs:18-19 | the order is strictly increasing column by column, so no pixel is visited twice |
| SingleThreaded.ColumnMajorCovers | src/convert_single_threaded.rs:18-19 | every pixel of the image is visited |
| SingleThreaded.Convert | src/convert_single_threaded.rs:15-48 | the output has the input's dimensions |
| SingleThreaded.RunFrame | src/convert_single_threaded.rs:18-43 | a pixel that no visit quantises or reaches keeps its value |
| SingleThreaded.QuantisedUnlessReachedLater | src/convert_single_threaded.rs:18-43 | a pixel that no later visit reaches ends as the colour its own visit chose |
| SingleThreaded.ReachedOnceLater | src/convert_single_threaded.rs:18-43 | a pixel reached by exactly one later visit ends as its own chosen colour shifted by that visit's share |
| SingleThreaded.LaterColumnReach | src/convert_single_threaded.rs:18-43 | a visit later in column order reaches a pixel only as its down-left target |
| SingleThreaded.EdgePixelsQuantised | src/convert_single_threaded.rs:18-43 | pixels in row 0 or in the last column end as palette colours |
| SingleThreaded.InteriorPixelReachedAgain | src/convert_single_threaded.rs:18-43 | every other pixel ends as its own chosen colour plus 3/16 of the residual of pixel `(x + 1, y - 1)`, visited later |
| SingleThreaded.ConvertFixed | src/convert_single_threaded.rs:24-42 | an image of palette colours is returned unchanged |
| SingleThreaded.SinglePixel | src/convert_single_threaded.rs:18-39 | a 1×1 image becomes the lookup of its pixel, with no diffusion |
| SingleThreaded.ReachesIsForward | src/convert.rs:4-9 | every kernel target comes after its source in row order |
| SingleThreaded.RowMajorAllInPalette | src/convert_single_threaded.rs:18-19 | with `y` as the outer loop, every output pixel is a palette colour |
| SingleThreaded.ConvertRowMajorFixed | src/convert_single_threaded.rs:24-42 | the row-major converter also returns a palette image unchanged |
| Channels.Step | src/convert_channels.rs:53-107 | one iteration advances one column, sends one more message and keeps the earlier ones |
| Channels.Finish | src/convert_channels.rs:53-108 | the rest of the loop sends one message per remaining column; the successor is spawned iff the spawn column is still ahead in the row and the row is not the last |
| Channels.Thread | src/convert_channels.rs:36-110 | a worker sends exactly `width` messages and spawns its successor iff the row is wider than the spawn column and is not the last row |
| Channels.StepKeepsInv | src/convert_channels.rs:44-107 | any worker with the fields of one iteration keeps the ring-buffer invariant |
| Channels.StepInv | src/convert_channels.rs:44-107 | one iteration keeps the invariant: `ring_idx == x mod 3`, the slots and `next_pixel_error` hold the partial sums of the residuals so far, the messages and written pixels are as the reference definitions say |
| Channels.FinishInv | src/convert_channels.rs:53-108 | the invariant holds at the end of the row |
| Channels.ThreadInv | src/convert_channels.rs:44-108 | the invariant holds of a whole worker run, which ends at column `width` |
| Channels.ThreadPixels | src/convert_channels.rs:54-81 | pixel `x` is written once, with the lookup of the original pixel plus 7/16 of the residual to its left and message `x` from above, at factor 1.0 |
| Channels.ThreadMessages | src/convert_channels.rs:86-104 | message `x` is 3/16 of residual `x` plus 5/16 of residual `x - 1` plus 1/16 of residual `x - 2`, absent terms zero |
| Channels.MessageIsDownTotal | src/convert_channels.rs:86-93 | message `x` is the kernel's full contribution from the row to column `x - 1` of the row below |
| Channels.ReceivedIsLeftDownTotal | src/convert_channels.rs:54-71 | the worker below adds at column `x` the kernel total meant for column `x - 1` |
| Channels.ThreadInPalette | src/convert_channels.rs:75-81 | every pixel a worker writes is a palette colour |
| Channels.ConvertFrom | src/convert_channels.rs:95-101 | composing the workers keeps the image's shape and leaves the rows above untouched |
| Channels.ChannelConvert | src/convert_channels.rs:20-33 | the output has the input's dimensions |
| Channels.ConvertFromInPalette | src/convert_channels.rs:95-101 | when rows are wider than the spawn column, every row from `y` on is converted to palette colours |
| Channels.ConvertFromStops | src/convert_channels.rs:95-101 | when the row is not wider than the spawn column, the rows below are returned as they were |
| Channels.ChannelInPalette | src/convert_channels.rs:20-33 | images at least two pixels wide come back entirely in the palette |
| Channels.ChannelNarrowRowsUnconverted | src/convert_channels.rs:95-101 | in an image one pixel wide, rows 1 and below come back unconverted |
| Channels.ChannelConvertSpawnFirst | src/convert_channels.rs:95-101 | the converter spawning at column 0 keeps the image's shape |
| Channels.SpawnFirstInPalette | src/convert_channels.rs:95-101 | spawning at column 0, images of any width come back entirely in the palette |
| Channels.QuietThread | src/convert_channels.rs:53-107 | over a row of palette colours with error-free messages, a worker leaves the row as it is and sends only error-free messages |
| Channels.ChannelFixed | src/convert_channels.rs:20-33 | an image of palette colours is returned unchanged |
| Scenarios.BlackBeforeSecondVisit | src/convert.rs:20-24 | in the all-black 2×2 image the shares handed to `(0, 1)` and `(1, 0)` before their visits are clamped, so they are still black |
| Scenarios.ThreeSixteenthsOfDarkest | src/convert.rs:20-26 | `(13, 13, 13)` plus 3/16 of the residual -13 is `(10, 10, 10)` |
| Scenarios.AllBlackTwoByTwo | src/convert_single_threaded.rs:18-43 | the sequential converter leaves `(10, 10, 10)` at `(0, 1)` of an all-black 2×2 image, so the result is not a palette image |
| Scenarios.SchedulesDiffer | src/convert_single_threaded.rs:18-19 | on the all-black 2×2 image the two converters give different images: the column-major order leaves a non-palette pixel, the channel converter does not |
| Scenarios.NarrowImage | src/convert_channels.rs:95-101 | a 1×2 image whose second row is `(10, 10, 10)` keeps that colour, so the result is not a palette image |
| Scenarios.AllWhiteUnchanged | src/convert_single_threaded.rs:24-42 | an all-white image of any size comes back unchanged from both converters |

## Left out

- The k-d tree and its `OnceLock` initialisation (src/colors.rs:295-299) are not part of this model. A linear scan takes their place. The lookup's contract promises a nearest entry; which entry is chosen on a tie is not promised.
- Colors.FindClosest: its own contract states only the residual equations and bounds. Minimality and palette membership are the lemmas `FindClosestIsNearest` and `FindClosestInPalette`.
- IEEE `f32` arithmetic is not modelled. Every value in the source is a dyadic fraction with a numerator below 2^24, so the integer model computes the same numbers and no rounding occurs.
- Rayon, the `RwLock` and the crossbeam channels of src/convert_channels.rs are left out. Each worker reads and writes only its own row and reads the messages from above in the order they were sent. Running the workers one after the other is therefore modelled as a sequential composition.
- A `recv` that fails because the sender has finished, and messages that do not exist, both count as zero error.
- src/convert_mutex.rs and src/main.rs are not part of this model: the first is a concurrency variant of the same kernel, the second is I/O and timing.
- An image of height 0 and positive width cannot be represented as a sequence of rows. The channel converter would panic on it when its first worker reads pixel (0, 0) (src/convert_channels.rs:68). The sequential converter returns such an image unchanged, since its `y` loop (src/convert_single_threaded.rs:19) is empty.
- Integer widths (`u32` coordinates, `i16` residuals, `usize` ring index) never overflow on valid images, so they are modelled as unbounded integers.

## Findings

| source | as written | input that shows it | evidently intended | confidence | as-written member | corrected member |
|---|---|---|---|---|---|---|
| src/convert_single_threaded.rs:18-19 | pixels are visited column by column, so the down-left share reaches a pixel that is already quantised, against the promise of a palette image (src/convert.rs:13) | the all-black 2×2 image: pixel `(0, 1)` ends as `(10, 10, 10)` | visit row by row, `y` outer, so that every output pixel is a palette colour | not executed | Scenarios.AllBlackTwoByTwo | SingleThreaded.RowMajorAllInPalette |
| src/convert_channels.rs:95 | a worker spawns its successor only at `x == 1` | a 1×2 image with rows `[c]` and `[(10, 10, 10)]`: row 1 is never converted | spawn the successor for every width, e.g. at column 0 | not executed | Scenarios.NarrowImage | Channels.SpawnFirstInPalette |
