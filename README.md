# PCB fault detector: tile pipeline

The web client of the PCB fault detector (`pcb-web/src/App.js`) takes a large PCB photograph
and runs it through a pipeline:

- it cuts the photograph into 640 × 640 tiles laid out evenly along each axis (`computeCoords`,
  `splitBitmap`);
- if asked, it binarises every tile at Otsu's threshold of its luminance histogram
  (`otsuThresholdFromGrayHistogram`, `bitmapToTileBlob`);
- it sends the tiles one after the other to a detection service;
- it paints the returned tiles, in order, onto a white canvas the size of the photograph
  (`handleProcess`).

This project models that pipeline in Dafny. Each part follows the code's own step-by-step
form:

- the coordinate planner, the two Otsu loops and the tile loop are methods with loop
  invariants;
- the histogram and the binarisation work in place on an `array` of bytes;
- the final canvas is an `array2` that later tiles overwrite;
- the job's state (status, progress, result) is a class whose methods update its fields.

Every method is proved against a specification function, and the properties of the
pipeline are proved about those functions:

- the coordinates run evenly from 0 to the border and leave no gap;
- the threshold is the lowest maximiser of the between-class variance;
- the histogram holds one count per pixel;
- `putImageData(getImageData())` round-trips;
- the tiles come out in row-major order;
- progress counts the successful detector calls, and a failure leaves no result;
- with thresholding off and a detector that returns its input, reassembly gives back the
  photograph pixel for pixel (drawing replaces pixels here; alpha blending is left out).

Modules, one per file:

- `grid.dfy` (`Grid`): `computeCoords`.
- `otsu.dfy` (`Otsu`): `otsuThresholdFromGrayHistogram`. Means are exact rationals (`real`).
- `binarize.dfy` (`Binarize`): luminance, the histogram loop, the binarisation loop and the
  thresholded tile.
- `images.dfy` (`Images`): bitmaps as rows of RGBA pixels, and the flat RGBA buffer that
  `getImageData` and `putImageData` exchange.
- `split.dfy` (`Split`): `splitBitmap`, its row-major anchors and the clipped copy of each tile.
- `reassembly.dfy` (`Reassembly`): the white canvas and the in-order drawing of the processed tiles.
- `job.dfy` (`Job`): `handleProcess` as a state machine over status, progress and result,
  with the detector as a parameter.

Arithmetic conventions:

- `Math.ceil(n / d)` is `(n + d - 1) / d`.
- `Math.round(n / d)` on non-negative rationals is `(2n + d) / (2d)`.
- Luminance `Math.round(0.299 R + 0.587 G + 0.114 B)` is `(299 R + 587 G + 114 B + 500) / 1000`
  in exact arithmetic.

A tile with just two luminance levels a < b (say half its pixels grey 20 and half grey 220)
gets threshold a. Every cut from a to b - 1 has the same between-class variance, and the
scan keeps the first because App.js:28 replaces the best only on a strictly greater variance
(`Otsu.TwoBinThreshold`, `Binarize.TwoLevelThreshold`). The comparison `lum >= thresh` on
App.js:62 then turns every pixel of such a tile white (`Binarize.AsWrittenWhitensTwoLevelTile`).
The pipeline model keeps that comparison as written. The comparison is logged under
"Findings"; the corrected cutoff `lum > thresh` is `Job.PreparedCorrected`.

## Model

| member | source | states |
|---|---|---|
| Grid.CeilDivBounds | pcb-web/src/App.js:72 | the tile count is the least q with q * tileSize >= length |
| Grid.RoundDivNearest | pcb-web/src/App.js:76 | the rounded position r satisfies r - 1/2 <= n/d < r + 1/2 |
| Grid.AxisCoords | pcb-web/src/App.js:71-79 | the planner yields ceil(length / tileSize) coordinates |
| Grid.ComputeCoords | pcb-web/src/App.js:71-79 | the push loop returns exactly the planned coordinates |
| Grid.CountBound | pcb-web/src/App.js:72-76 | with two or more tiles, count - 1 <= length - tileSize <= (count - 1) * tileSize |
| Grid.SingleTileIff | pcb-web/src/App.js:72-74 | for length >= 1, the result is [0] exactly when length <= tileSize (both directions) |
| Grid.Endpoints | pcb-web/src/App.js:75-77 | with two or more tiles, the first coordinate is 0 and the last is length - tileSize |
| Grid.Step | pcb-web/src/App.js:76 | neighbouring coordinates rise by at least 1 and at most tileSize |
| Grid.Increasing | pcb-web/src/App.js:75-77 | the coordinates are strictly increasing |
| Grid.InRange | pcb-web/src/App.js:75-77 | with two or more tiles, every tile [c, c + tileSize) lies inside [0, length) |
| Grid.CoverIndex | pcb-web/src/App.js:72-77 | a gap-free run of tiles spanning p has a tile containing p |
| Grid.Coverage | pcb-web/src/App.js:72-77 | every position in [0, length) lies in some tile |
| Grid.Examples | pcb-web/src/App.js:75-77 | (1280, 640) gives [0, 640] and (1000, 640) gives [0, 360] |
| Grid.ExampleCase | pcb-web/src/App.js:72-77 | tileSize < length <= 2 tileSize gives [0, length - tileSize] |
| Otsu.ScanTo | pcb-web/src/App.js:19-32 | the best threshold so far is one of the bins scanned, and varMax is never negative |
| Otsu.ThresholdOf | pcb-web/src/App.js:11-34 | the threshold is below 256 and is the lowest candidate of greatest positive variance, or 0 if none has a positive variance |
| Otsu.MomentSum | pcb-web/src/App.js:12-13 | the first loop computes the sum of t * hist[t] |
| Otsu.OtsuThreshold | pcb-web/src/App.js:11-34 | the accumulator loop with continue and break returns that lowest maximiser |
| Otsu.ScanFindsLowestMaximiser | pcb-web/src/App.js:19-31 | after bins 0..n-1 the scan holds the lowest maximiser so far and its variance |
| Otsu.NotReachedAfterStop | pcb-web/src/App.js:22-23 | after the break at an empty foreground no later bin is scored |
| Otsu.ScanAfterStop | pcb-web/src/App.js:22-23 | bins after the break leave threshold and varMax as they were |
| Otsu.Deterministic | pcb-web/src/App.js:28-31 | the histogram and total fix the threshold |
| Otsu.NoSplitMeansZero | pcb-web/src/App.js:18-33 | if no bin has both wB > 0 and wF > 0 the threshold is 0 |
| Otsu.PrefixStep | pcb-web/src/App.js:20-24 | adding bin t adds hist[t] to wB and t * hist[t] to sumB |
| Otsu.SparsePrefix | pcb-web/src/App.js:20-24 | wB and sumB for a histogram with mass only in bins a and b |
| Otsu.ReachedBefore | pcb-web/src/App.js:19-23 | the scan reaches every bin before its first break |
| Otsu.ClassMean | pcb-web/src/App.js:25-26 | a class whose pixels all sit at level a has mean a |
| Otsu.TwoLevelVariance | pcb-web/src/App.js:25-27 | two non-empty classes at distinct levels have positive between-class variance |
| Otsu.TwoBinCandidates | pcb-web/src/App.js:19-31 | with mass in bins a < b the candidates are a..b-1, all of the same positive variance |
| Otsu.TwoBinThreshold | pcb-web/src/App.js:19-31 | mass in exactly two bins a < b gives threshold a |
| Otsu.UniformThreshold | pcb-web/src/App.js:18-33 | all mass in one bin gives threshold 0 |
| Binarize.Lum | pcb-web/src/App.js:54 | every luminance is a bin index in [0, 255] |
| Binarize.Histogram | pcb-web/src/App.js:50-56 | the histogram of a buffer has 256 bins adding up to its pixel count data.length / 4 |
| Binarize.HistogramCounts | pcb-web/src/App.js:50-56 | bin v holds exactly the number of pixels whose luminance is v |
| Binarize.HistogramOf | pcb-web/src/App.js:50-56 | the histogram has 256 bins |
| Binarize.SumIncrement | pcb-web/src/App.js:55 | hist[lum]++ adds one to the histogram's mass |
| Binarize.ZeroSum | pcb-web/src/App.js:50 | the zero-filled histogram has mass 0 |
| Binarize.HistogramMass | pcb-web/src/App.js:50-56 | the bins add up to the number of pixels counted |
| Binarize.CountedInItsBin | pcb-web/src/App.js:53-56 | every pixel is counted in the bin of its luminance |
| Binarize.HistogramStep | pcb-web/src/App.js:54-55 | counting the next pixel adds one to the bin of its luminance and leaves the others |
| Binarize.BuildHistogram | pcb-web/src/App.js:50-56 | the stride-4 loop builds the histogram of the buffer, 256 bins summing to data.length / 4 |
| Binarize.Binarized | pcb-web/src/App.js:60-64 | the binarised buffer has the length of the input (its bytes are stated by PixelBytes) |
| Binarize.PixelBytes | pcb-web/src/App.js:60-64 | after binarisation R = G = B = the pixel's level and alpha is unchanged |
| Binarize.UpToStep | pcb-web/src/App.js:62-63 | writing v to data[i..i+2] extends the binarised prefix by one pixel |
| Binarize.Binarize | pcb-web/src/App.js:60-64 | the in-place loop leaves the binarised buffer: R, G, B become 255 or 0 by the cutoff, alpha and length unchanged |
| Binarize.PixelwiseBinarized | pcb-web/src/App.js:60-64 | a buffer binarised pixel by pixel equals the binarised buffer |
| Binarize.ThresholdTile | pcb-web/src/App.js:48-66 | the tile buffer is binarised with lum >= thresh at Otsu's threshold of its own histogram, with total its pixel count |
| Binarize.GreyLum | pcb-web/src/App.js:54 | a grey pixel (v, v, v) has luminance v |
| Binarize.BinarizeIdempotent | pcb-web/src/App.js:60-64 | at every cutoff, binarising an already binarised buffer changes nothing |
| Binarize.TwoLevelThreshold | pcb-web/src/App.js:50-58 | a two-level tile (levels a < b) has only those luminances, and its threshold is a |
| Binarize.AsWrittenWhitensTwoLevelTile | pcb-web/src/App.js:62 | as written, every R, G, B byte of a two-level tile becomes 255 |
| Binarize.CorrectedSplitsTwoLevelTile | pcb-web/src/App.js:62 | with lum > thresh, level-a pixels become 0 and level-b pixels 255 |
| Images.ImageData | pcb-web/src/App.js:48-49 | getImageData yields 4 bytes per pixel |
| Images.RowData | pcb-web/src/App.js:48 | a row yields 4 bytes per pixel |
| Images.RowPixels | pcb-web/src/App.js:66 | 4k bytes yield k pixels |
| Images.FromImageData | pcb-web/src/App.js:66 | putImageData builds height rows of width pixels |
| Images.ImageDataLength | pcb-web/src/App.js:48 | getImageData of width × height pixels has 4 * width * height bytes |
| Images.RowRoundTrip | pcb-web/src/App.js:48-66 | decoding the bytes of a row gives the row |
| Images.RowBytesRoundTrip | pcb-web/src/App.js:48-66 | encoding the pixels of a byte row gives the bytes |
| Images.ImageDataRoundTrip | pcb-web/src/App.js:48-66 | putImageData(getImageData()) gives back the bitmap |
| Images.BytesRoundTrip | pcb-web/src/App.js:48-66 | getImageData(putImageData(d)) gives back d (exact in the browser only for opaque pixels) |
| Split.ClipRow | pcb-web/src/App.js:94-95 | a tile row has size pixels |
| Split.ClipRows | pcb-web/src/App.js:94-95 | n tile rows of size pixels each |
| Split.Extract | pcb-web/src/App.js:94-95 | the cleared and drawn tile canvas is size × size |
| Split.ClipRowsAt | pcb-web/src/App.js:94-95 | tile row r is the clipped source row y + r |
| Split.ExtractAt | pcb-web/src/App.js:94-95 | a tile pixel is the source pixel inside the bitmap and transparent outside |
| Split.RowMajor | pcb-web/src/App.js:92-99 | every enumerated anchor pairs a column coordinate with a row coordinate |
| Split.Cut | pcb-web/src/App.js:92-99 | one tile per anchor, each size × size |
| Split.TilesOf | pcb-web/src/App.js:92-99 | one tile per grid anchor, each size × size |
| Split.SplitBitmap | pcb-web/src/App.js:82-101 | returns the column and row coordinates and one tile per anchor, rows outer and columns inner |
| Split.SplitRow | pcb-web/src/App.js:93-98 | the inner loop yields the tiles of one grid row, left to right |
| Split.RowOfStep | pcb-web/src/App.js:93-97 | the next column appends its anchor to the row |
| Split.RowMajorStep | pcb-web/src/App.js:92-98 | the next row coordinate appends its row of anchors |
| Split.CutStep | pcb-web/src/App.js:97 | pushing a tile appends the tile cut at its anchor |
| Split.CutAppend | pcb-web/src/App.js:92-99 | cutting two runs of anchors is cutting each run |
| Split.RowMajorLength | pcb-web/src/App.js:92-99 | there are \|rows\| * \|cols\| anchors |
| Split.RowMajorIndex | pcb-web/src/App.js:92-99 | anchor i * \|cols\| + j is (cols[j], rows[i]) |
| Split.RowMajorMembers | pcb-web/src/App.js:92-99 | an anchor is enumerated exactly when it pairs a column and a row coordinate |
| Split.CutIndex | pcb-web/src/App.js:92-99 | tile k is the one cut at anchor k |
| Split.TileAt | pcb-web/src/App.js:97 | tile k carries anchor k and the bitmap cut there |
| Split.Covered | pcb-web/src/App.js:83-99 | every pixel of the bitmap lies in the square of some anchor |
| Reassembly.CompositeAt | pcb-web/src/App.js:165-170 | a canvas pixel is white or the pixel of some tile that covers it |
| Reassembly.Composed | pcb-web/src/App.js:161-170 | the final image has the source's width and height |
| Reassembly.PaintRow | pcb-web/src/App.js:169 | drawing one canvas row paints the covered pixels of that row and nothing else |
| Reassembly.Paint | pcb-web/src/App.js:169 | drawImage paints exactly the pixels the tile covers, clipped to the canvas |
| Reassembly.Composite | pcb-web/src/App.js:161-170 | after the white fill and the drawing loop each pixel is the composite of the tiles |
| Reassembly.Uncovered | pcb-web/src/App.js:165-170 | a pixel no tile covers stays white |
| Reassembly.LastCoverWins | pcb-web/src/App.js:168-170 | a covered pixel shows the last tile covering it |
| Reassembly.CoversAgree | pcb-web/src/App.js:168-170 | if every covering tile shows v at a pixel, the pixel is v |
| Reassembly.CanvasPicture | pcb-web/src/App.js:161-172 | the finished canvas holds the composed image |
| Job.TileBytes | pcb-web/src/App.js:48-51 | a width × height tile's image data has 4 * width * height bytes |
| Job.WholePixels | pcb-web/src/App.js:48-53 | a tile's image data is whole 4-byte pixels, height rows of 4 * width bytes |
| Job.Thresholded | pcb-web/src/App.js:60-66 | the tile rewritten through putImageData keeps its width and height |
| Job.ThresholdedBytes | pcb-web/src/App.js:48-66 | the rewritten tile's image data is the tile's image data binarised at the cutoff (for opaque pixels in the browser) |
| Job.TileThresholdTotal | pcb-web/src/App.js:50-58 | a tile's threshold is Otsu's threshold of its histogram with total its pixel count |
| Job.Prepared | pcb-web/src/App.js:37-68 | the payload has the tile's dimensions |
| Job.PreparedBytes | pcb-web/src/App.js:48-66 | with thresholding on, the detector receives the tile's image data binarised with lum >= thresh at Otsu's threshold (for opaque pixels in the browser) |
| Job.PreparedCorrected | pcb-web/src/App.js:62 | the payload with the corrected comparison lum > thresh has the tile's dimensions |
| Job.PreparedCorrectedBytes | pcb-web/src/App.js:62 | with the corrected comparison the image data is binarised at cutoff thresh + 1 |
| Job.PrepareTile | pcb-web/src/App.js:37-68 | the payload is the tile as is, or the tile through getImageData, thresholding in place with lum >= thresh, and putImageData |
| Job.PreparedWithoutThreshold | pcb-web/src/App.js:44-46 | without thresholding the tile is sent unchanged |
| Job.FirstFailure | pcb-web/src/App.js:136-157 | the first failing index lies between i and the tile count |
| Job.FirstFailureIs | pcb-web/src/App.js:136-157 | every call from i up to the first failing index succeeds, and the call there fails |
| Job.Completed | pcb-web/src/App.js:136-157 | the number of tiles processed: all calls before it succeed, the one at it fails |
| Job.CompletedIs | pcb-web/src/App.js:136-157 | the processed count is the unique first failing index |
| Job.Results | pcb-web/src/App.js:134-154 | n successful iterations push n processed tiles |
| Job.ResultsStep | pcb-web/src/App.js:154 | a successful call appends its tile to processed |
| Job.Job.constructor | pcb-web/src/App.js:104-109 | a new job is idle with no progress and no result |
| Job.Job.Process | pcb-web/src/App.js:116-182 | no file: status only; undecodable file: failed with 0 of 0 and no result; otherwise the finished state |
| Job.Job.Run | pcb-web/src/App.js:128-175 | total is the tile count and done the completed count; on failure no result, otherwise the composed image and Done |
| Job.Job.ProcessTiles | pcb-web/src/App.js:136-157 | done counts the successful calls before the first failure; if all succeed, processed is every answer in order |
| Job.Reassemble | pcb-web/src/App.js:159-172 | the reassembled picture is the composed image |
| Job.FailsIff | pcb-web/src/App.js:140-154 | the job fails exactly when some tile's call fails, a non-ok response at App.js:150 (both directions) |
| Job.ResultsKeepAnchors | pcb-web/src/App.js:140-154 | processed[i] has the x and y of tiles[i] and the detector's answer for the prepared tile |
| Job.IdentityReconstructs | pcb-web/src/App.js:131-170 | with an identity detector and no thresholding, every call succeeds and the reassembled image equals the source |
| Job.IdentityAnswers | pcb-web/src/App.js:140-154 | with thresholding off, the identity detector's iteration yields the tile itself |
| Job.IdentityResults | pcb-web/src/App.js:134-154 | with thresholding off, the identity detector's processed tiles are the tiles, in order |
| Job.PixelReconstructed | pcb-web/src/App.js:159-170 | one pixel of that reconstruction is the source pixel |
| Job.TileShowsSource | pcb-web/src/App.js:92-99 | a grid tile covering a source pixel shows that pixel |

## Left out

- The React component, `useState`, JSX rendering, the `loading` flag, the file-input handler
  and the status and error strings (App.js:6-8, 103-232). Status is reduced to
  `Idle | NoFile | Failed | Done`.
- `fetch`, `FormData`, PNG encoding by `canvas.toBlob`, decoding by `createImageBitmap` and
  `URL.createObjectURL`. These are I/O and browser APIs. The detector is a parameter
  `Bitmap -> Option<Bitmap>`: a non-ok response is `None`. An undecodable upload is a case
  of the `Upload` input.
- `async`/`await`. The model runs the same steps in sequence.
- The progress counter's functional update `p => p.done + 1` is a plain increment.
- IEEE-754 floating point in the luminance and in the Otsu means. Luminance is exact
  rounding of the rational value; means are `real`. Where the browser's floating result
  lies within rounding error of a half-point, or two variances tie only up to rounding,
  the browser may differ.
- Reassembly.Paint: `drawImage(t.bitmap, t.x, t.y, TILE_SIZE, TILE_SIZE)` scales the
  returned bitmap to 640 × 640. The model paints it unscaled, clipped to its own extent and
  to the canvas, so it is exact only for tile-sized answers. Alpha blending is also left
  out: a drawn pixel replaces the one beneath.
- Job.Prepared: the redraw of the tile onto a fresh TILE_SIZE canvas (App.js:38-42) is
  taken as the identity. Tiles from `splitBitmap` are already TILE_SIZE square
  (`Split.TilesOf`). The histogram total is the tile's pixel count, width * height, which is
  `TILE_SIZE * TILE_SIZE` (App.js:51) for those tiles.
- Images.BytesRoundTrip, Job.ThresholdedBytes, Job.PreparedBytes: the conversion between a
  bitmap and its RGBA buffer is modelled as exact in both directions. A 2D canvas stores
  premultiplied alpha, so the browser guarantees `getImageData(putImageData(d)) == d` only for
  pixels with alpha 255. A non-opaque pixel's R, G and B may change, and a fully transparent
  one reads back, and is encoded by `toBlob` (App.js:67), as 0, 0, 0. For example, the
  transparent padding of an edge tile (luminance 0) can make the threshold 0. App.js:62 then
  sets that padding to (255, 255, 255, 0), but the browser sends it as (0, 0, 0, 0).
- The Python service (`python-api/app.py`, `python-api/test.py`) is not part of this model.

## Findings

| source | as written | input that shows it | evidently intended | confidence | as-written member | corrected member |
|---|---|---|---|---|---|---|
| pcb-web/src/App.js:62 | `lum >= thresh ? 255 : 0`. Otsu's threshold t splits the classes into levels 0..t and t+1..255, so the background's top level becomes white | a tile whose pixels are all grey (20, 20, 20) or (220, 220, 220): the threshold is 20, and every pixel becomes white | `lum > thresh`: the background class (luminance <= thresh) black, the foreground white, so a two-level tile becomes black and white | not executed | Binarize.AsWrittenWhitensTwoLevelTile | Binarize.CorrectedSplitsTwoLevelTile |
