# DCT and DWT image compression, modelled in Dafny

This project models the image codec of a small Java program that compares two ways of
compressing a 512 x 512 RGB image:

- The discrete cosine transform (DCT) codec cuts each colour channel into 8x8 blocks and
  transforms each block. When decoding it keeps only the first m coefficients of every block
  in zig-zag order.
- The discrete wavelet transform (DWT) codec applies a Haar wavelet pyramid to each whole
  channel plane. When decoding it keeps only a top-left corner of each plane.

Both decoders turn a coefficient budget n into what they keep. The DCT decoder keeps
Math.round(n / 4096) coefficients per block. The DWT decoder keeps a corner whose side comes
from floor(sqrt(n)) and a base-2 logarithm. The progressive drivers decode again and again with
growing budgets. The command line entry point checks its arguments, reads the image, encodes it
both ways and runs one of three modes.

Modules, in dependency order:

- `Pixels`: packed ARGB pixels as `bv32`. It covers channel extraction, the channel writes of
  the decoders, and what `setRGB`/`getRGB` do on an image without alpha (alpha reads back as
  0xFF).
- `Samples`: the conversion from a sample back to a colour. This is `Math.round` to a `long`,
  the `(int)` cast that keeps the low 32 bits, and the clamp to 0..255.
- `Images`: row-major pixel indexing, a new black image, and `readImageRGB` over the planar
  file layout.
- `Zigzag`: `getZigzagOrder` as a function `Order()` and as the source's nested loop.
- `DctBlocks`: 8x8 blocks, the `x * 8 + y` flattening, and `applyZigzagThreshold`.
- `DctCodec`: `encodeDCT` and `decodeDCT`. They are imperative, block by block, over arrays.
- `Haar`: `transformRow` and `inverseTransformRow`.
- `Dwt`: `forwardDWT` and `inverseDWTTransform` over a 2-D array, each also given as a
  function on grids.
- `WaveletBudget`: `applyWaveletThreshold`, with integer floor square root and floor log2.
- `DwtCodec`: `encodeDWT` and `decodeDWT`.
- `Progressive`: `progressiveDCT`, `progressiveDWT` and `balancedProgressiveDCTandDWT`. Each
  frame is modelled as the decoded pixels at the moment they would be shown.
- `Assignment`: `main`, modelled as the sequence of calls it makes.

Two behaviours of the code that the model keeps:

- `readImageRGB` catches its own I/O failure and prints a message. `main` then goes on encoding
  the still-black image; nothing aborts. `Images.ReadImageRgb` returns `false` and leaves the
  image unchanged, and `Assignment.Run` continues after `ReadImage`.
- `main`'s argument and budget checks are part of the model (`Assignment`).

## Model

| member | source | states |
|---|---|---|
| Pixels.SetRedChangesRedOnly | utils/ImageUtils.java:133-134 | masking with 0xFF00FFFF and or-ing `color << 16` sets the red channel to the colour and leaves green and blue as they were |
| Pixels.SetGreenChangesGreenOnly | utils/ImageUtils.java:135-136 | the green write sets green and leaves red and blue |
| Pixels.SetBlueChangesBlueOnly | utils/ImageUtils.java:137-138 | the blue write sets blue and leaves red and green |
| Pixels.StoredKeepsColors | utils/ImageUtils.java:131-140 | a pixel stored with `setRGB` and read back with `getRGB` has the same three colours and is opaque |
| Pixels.PackRgbChannels | utils/ImageUtils.java:38 | the packed pixel carries r, g and b in its three channels and is already opaque, so storing it changes nothing |
| Pixels.DecodedColors | utils/ImageUtils.java:116-145 | the pixel a decoder leaves after writing channels 0, 1, 2 into a new image has exactly those three colours and is opaque |
| Pixels.DecodedOfColors | utils/ImageUtils.java:94-95 | rebuilding a pixel from the three colours the encoder extracts gives the pixel as `getRGB` reports it |
| Samples.RoundToLong | utils/ImageUtils.java:132 | `Math.round` returns the nearest `long`, halves rounding up; an argument at or above LongMax - 0.5 gives LongMax and one below LongMin + 0.5 gives LongMin |
| Samples.ToInt32 | utils/ImageUtils.java:132 | the `(int)` cast gives a 32-bit value congruent to its input modulo 2^32, and the input itself when it is in range |
| Samples.ClampColor | utils/ImageUtils.java:132 | the clamped colour is always in 0..255 |
| Samples.ClampColorInRange | utils/ImageUtils.java:132 | for samples in the `int` range: below -0.5 gives 0, from 254.5 up gives 255, otherwise the nearest integer |
| Samples.ColorOfSample | utils/ImageUtils.java:132 | a colour taken as a sample and converted back is the same colour |
| Samples.ClampColorWraps | utils/ImageUtils.java:132 | a sample beyond the `int` range wraps through the cast before the clamp: 4294967396.0 becomes colour 100, not 255 |
| Images.NewImage | utils/ImageUtils.java:116 | a new image has w * h pixels, all opaque black |
| Images.FrameBytes | utils/ImageUtils.java:28-29 | the buffer holds the file's first bytes and zeros past the file's end |
| Images.PlanarPixelChannels | utils/ImageUtils.java:34-38 | pixel k takes red from byte k, green from byte k + w h and blue from byte k + 2 w h |
| Images.FillFromPlanes | utils/ImageUtils.java:31-42 | every pixel of the image is the planar pixel at its index |
| Images.ReadImageRgb | utils/ImageUtils.java:21-48 | it succeeds exactly when the file can be read; on failure the image is unchanged, otherwise every pixel is the planar pixel of the zero-padded frame |
| Zigzag.GetZigzagOrder | utils/ImageUtils.java:159-171 | the loop produces exactly the 64 cells of `Order()` |
| Zigzag.ScanStep | utils/ImageUtils.java:162-168 | position Start(s) + t of the scan is the t-th cell of anti-diagonal s, in the direction the parity of s selects |
| Zigzag.OrderIsBijection | utils/ImageUtils.java:159-171 | the order is a permutation of the 8x8 cells: position k holds a cell whose rank is k, and every cell sits at its rank |
| Zigzag.OrderInjective | utils/ImageUtils.java:159-171 | no cell appears twice |
| Zigzag.OrderStartsAtOrigin | utils/ImageUtils.java:162-166 | the scan starts at the DC cell (0, 0) |
| Zigzag.OrderDiagonalsAscend | utils/ImageUtils.java:162-164 | the anti-diagonal x + y never decreases along the scan and grows by at most one per step |
| Zigzag.OrderAlternates | utils/ImageUtils.java:165-166 | within an anti-diagonal the scan steps to (x + 1, y - 1) on even diagonals and to (x - 1, y + 1) on odd ones |
| Zigzag.OrderIsJpegZigzag | utils/ImageUtils.java:159-171 | the order is the standard JPEG zig-zag table, with the first coordinate as the table's column |
| DctBlocks.FlatIndexBijection | utils/ImageUtils.java:103 | `x * 8 + y` maps the 8x8 cells one-to-one onto 0..63 and back |
| DctBlocks.UnflattenFlatten | utils/ImageUtils.java:122-126 | storing a block flat and copying it back gives the same block |
| DctBlocks.FlattenUnflatten | utils/ImageUtils.java:101-105 | copying 64 stored coefficients into a block and storing it again gives the same coefficients |
| DctBlocks.ApplyZigzagThreshold | utils/ImageUtils.java:149-156 | the block afterwards is `Truncated(old block, m)` |
| DctBlocks.TruncatedKeepsScanPrefix | utils/ImageUtils.java:149-156 | the cell at scan position k keeps its value when k < m and is 0 otherwise |
| DctBlocks.TruncatedBounds | utils/ImageUtils.java:151 | m >= 64 leaves the block unchanged; m <= 0 zeroes it |
| DctBlocks.TruncatedTwice | utils/ImageUtils.java:149-156 | thresholding at m1 and then at m2 is thresholding at the smaller of the two |
| DctBlocks.TruncatedDependsOnScanPrefix | utils/ImageUtils.java:149-156 | the result depends only on the first m cells of the scan |
| DctCodec.DctBudgetRounds | utils/ImageUtils.java:115 | the per-block count is n / 4096 rounded to the nearest integer |
| DctCodec.DctBudgetProperties | utils/ImageUtils.java:115 | k * 4096 gives exactly k; the count grows with n; it is >= 0 iff n >= -2048 and >= 64 iff n >= 260096 |
| DctCodec.ExtractBlock | utils/ImageUtils.java:89-98 | the new block holds channel c of the 8x8 pixels at (i + x, j + y) |
| DctCodec.StoreBlock | utils/ImageUtils.java:101-105 | the block's slot holds the flattened block, and every other slot is unchanged |
| DctCodec.EncodeBlock | utils/ImageUtils.java:89-105 | the block's slot holds the transform of its samples, and every other block's slot is unchanged |
| DctCodec.EncodeBlockColumn | utils/ImageUtils.java:88-106 | every block of column of blocks i is encoded, and other columns are unchanged |
| DctCodec.EncodeDctChannel | utils/ImageUtils.java:86-108 | a new (w/8) x (h/8) x 64 array encodes every block of channel c |
| DctCodec.EncodeDct | utils/ImageUtils.java:79-111 | three new arrays; array c encodes channel c |
| DctCodec.CopyBlock | utils/ImageUtils.java:121-126 | the new block is the stored coefficients unflattened |
| DctCodec.WriteBlock | utils/ImageUtils.java:129-142 | every pixel of the block gets channel c set to the clamped sample and is stored; all other pixels are unchanged |
| DctCodec.DecodeBlock | utils/ImageUtils.java:121-142 | every pixel of the block gets channel c from the inverse transform of the thresholded block; all other pixels are unchanged |
| DctCodec.DecodeBlockColumn | utils/ImageUtils.java:120-143 | exactly the pixels of column of blocks i have channel c decoded |
| DctCodec.DecodeDctChannel | utils/ImageUtils.java:117-145 | every pixel has channel c replaced by its decoded colour |
| DctCodec.DecodeDct | utils/ImageUtils.java:114-147 | a new image whose every pixel is the three decoded colours with DctBudget(n) coefficients per block |
| DctCodec.DctRoundTripColor | utils/ImageUtils.java:79-147 | when the inverse transform undoes the forward one and all 64 coefficients are kept, each decoded colour is the original colour |
| DctCodec.DctRoundTrip | utils/ImageUtils.java:79-147 | under the same conditions every decoded pixel is the original pixel as `getRGB` reports it |
| Haar.TransformRow | utils/ImageUtils.java:320-329 | the row afterwards is `HaarForward(old row, length, 0.7071067811865476)` |
| Haar.InverseTransformRow | utils/ImageUtils.java:331-341 | the row afterwards is `HaarInverse(old row, length, 0.7071067811865476)` |
| Haar.HaarInverseForwardScales | utils/ImageUtils.java:320-341 | for any scale s, inverse after forward multiplies the first len entries by 2 s^2 and keeps the rest |
| Haar.HaarInverseForward | utils/ImageUtils.java:320-341 | with an exact scale (2 s^2 = 1) the inverse undoes the forward step |
| Haar.HaarForwardInverse | utils/ImageUtils.java:320-341 | with an exact scale the forward step undoes the inverse |
| Haar.HaarForwardDropsOddTail | utils/ImageUtils.java:322-328 | on an odd length the last entry is lost: the result does not depend on it |
| Haar.HaarScaleIsApproximate | utils/ImageUtils.java:325 | the source's constant is not exactly 1 / sqrt(2), but 2 s^2 is within 1e-10 of 1 |
| Dwt.StepGridRow | utils/ImageUtils.java:274-277 | row i becomes the Haar step of its first cols entries; other rows are unchanged |
| Dwt.StepGridColumn | utils/ImageUtils.java:280-287 | column j becomes the Haar step of its first rows entries; other columns are unchanged |
| Dwt.RowPass | utils/ImageUtils.java:273-278 | the grid becomes `RowStep` of the old grid |
| Dwt.ColPass | utils/ImageUtils.java:279-288 | the grid becomes `ColStep` of the old grid |
| Dwt.ForwardLevelPass | utils/ImageUtils.java:273-288 | one forward level is the row step then the column step |
| Dwt.InverseLevelPass | utils/ImageUtils.java:299-314 | one inverse level is the column step then the row step |
| Dwt.ForwardDwt | utils/ImageUtils.java:269-292 | the array afterwards is `ForwardFrom(old grid)` over the halving extents |
| Dwt.InverseDwt | utils/ImageUtils.java:295-318 | the array afterwards is `InverseFrom(old grid)` over the doubling extents from 2 x 2 |
| Dwt.StepsStayInExtent | utils/ImageUtils.java:273-288 | a level changes no cell outside its rows x cols extent |
| Dwt.LevelRoundTrip | utils/ImageUtils.java:273-314 | with an exact scale and an even extent, an inverse level undoes a forward level |
| Dwt.PyramidRoundTrip | utils/ImageUtils.java:269-318 | the inverse pyramid undoes the forward pyramid level by level |
| Dwt.DwtRoundTrip | utils/ImageUtils.java:269-318 | on a 2^e x 2^e plane with an exact scale, the inverse DWT of the forward DWT is the plane |
| Dwt.ExtentsMirror | utils/ImageUtils.java:269-318 | on a 2^e plane the inverse visits the forward extents in reverse order, e levels in all |
| WaveletBudget.FloorSqrt | utils/ImageUtils.java:344 | the size is the integer square root: q^2 <= n < (q + 1)^2 |
| WaveletBudget.FloorLog2 | utils/ImageUtils.java:345 | the level count is the integer log2: 2^r <= q < 2^(r + 1) |
| WaveletBudget.FloorSqrtMonotone | utils/ImageUtils.java:344 | a larger budget never gives a smaller size |
| WaveletBudget.SquareRoot | utils/ImageUtils.java:344 | the size of a perfect square p^2 is p |
| WaveletBudget.CornerCoversBudget | utils/ImageUtils.java:344-359 | the corner kept has side 2^(9 - levels), at least the size and below twice the size, and the whole 512 when the size exceeds 256 |
| WaveletBudget.CornerOfPowerOfFour | utils/ImageUtils.java:344-359 | budget 4^k (k <= 9) keeps a corner of side exactly 2^k |
| WaveletBudget.CornerSizeMonotone | utils/ImageUtils.java:343-359 | a larger budget never keeps a smaller corner |
| WaveletBudget.ApplyWaveletThreshold | utils/ImageUtils.java:343-367 | a cell keeps its value iff it lies in the top-left CornerSize(n) corner, otherwise it is 0 |
| WaveletBudget.KeepCornerTwice | utils/ImageUtils.java:343-367 | keeping corner a and then corner b is keeping the smaller corner |
| WaveletBudget.KeepWholePlane | utils/ImageUtils.java:360-366 | a corner that covers the plane keeps it unchanged |
| DwtCodec.ChannelData | utils/ImageUtils.java:223-231 | the new h x w array holds channel c of every pixel at [j][i] |
| DwtCodec.EncodeDwt | utils/ImageUtils.java:218-236 | three new planes; plane c is the forward DWT of channel c |
| DwtCodec.CopyPlane | utils/ImageUtils.java:243-246 | the copy is a new array with the same cells |
| DwtCodec.WriteColumn | utils/ImageUtils.java:252-263 | every pixel of column i gets channel c from the plane and is stored; all others are unchanged |
| DwtCodec.WritePlane | utils/ImageUtils.java:251-264 | every pixel gets channel c from the plane and is stored |
| DwtCodec.DecodeDwtChannel | utils/ImageUtils.java:242-264 | every pixel has channel c replaced by the colour of the inverse DWT of the budgeted plane |
| DwtCodec.DecodeDwt | utils/ImageUtils.java:239-267 | a new image whose every pixel is the three decoded colours for budget n |
| DwtCodec.PositiveBudgetFits | utils/ImageUtils.java:343-359 | every positive budget is one the threshold can take on a plane of at least 512 x 512 |
| DwtCodec.BudgetedCorner | utils/ImageUtils.java:247-249 | a budget of at least the pixel count keeps the plane untouched; a smaller one sees only the corner cells |
| DwtCodec.DwtRoundTripColor | utils/ImageUtils.java:218-267 | on a 2^e square image, with an exact scale and a budget of at least the pixel count, each decoded colour is the original colour |
| DwtCodec.DwtRoundTripPixel | utils/ImageUtils.java:218-267 | under the same conditions every decoded pixel is the original pixel |
| Progressive.DctScheduleSteps | utils/ImageUtils.java:377-379 | the 64 budgets run from 4096 to 262144, strictly increase, and step i keeps i + 1 coefficients per block |
| Progressive.Pow4IsSquare | utils/ImageUtils.java:395 | 4^e is 2^e squared |
| Progressive.DwtScheduleSteps | utils/ImageUtils.java:393-396 | the 10 budgets run from 1 to 512 * 512 and each quadruples the last; steps 0..8 keep corners of side 2^i |
| Progressive.BalancedScheduleSteps | utils/ImageUtils.java:411-414 | step i keeps i + 1 DCT coefficients per block, gives the DWT 1/64 of the DCT budget, and the DWT corner (8..127) never shrinks |
| Progressive.DctFrame | utils/ImageUtils.java:379 | the frame is the image decoded with m coefficients per block |
| Progressive.ProgressiveDct | utils/ImageUtils.java:371-384 | 64 frames; frame i is decoded with i + 1 coefficients per block |
| Progressive.DwtFrame | utils/ImageUtils.java:395-396 | the frame is the image decoded with budget n |
| Progressive.ProgressiveDwt | utils/ImageUtils.java:387-401 | 10 frames; frame i is decoded with budget 4^i |
| Progressive.BalancedFrame | utils/ImageUtils.java:413-415 | the pair shown is the DCT image for iter * 4096 and the DWT image for iter * 4096 / 64 |
| Progressive.BalancedProgressive | utils/ImageUtils.java:405-419 | 64 frames; frame i pairs the DCT image with i + 1 coefficients per block and the DWT image with budget 64 (i + 1) |
| Assignment.WrongArgumentCount | main/Assignment.java:10-13 | without exactly two arguments, main prints "Invalid input" and does nothing else |
| Assignment.BudgetChecked | main/Assignment.java:18-21 | a budget is rejected iff it is not -1, -2 or in 4096..262144; a rejected budget reads, encodes and decodes nothing |
| Assignment.EncodeOnceBeforeDecoding | main/Assignment.java:23-41 | for an accepted budget main reads the image and encodes it once each way, and every later call decodes or shows |
| Assignment.DirectMode | main/Assignment.java:30-34 | a positive budget is handed unchanged to both decoders, and the two images are shown |
| Assignment.ProgressiveModes | main/Assignment.java:35-41 | -1 runs the DCT then the DWT progressive sequence; -2 runs only the balanced one |
| Assignment.ExactlyOneMode | main/Assignment.java:30-41 | exactly one mode starts for an accepted budget, and none otherwise |
| Assignment.DecoderBudgetsFit | main/Assignment.java:18-32 | every budget main hands a decoder keeps 1..64 DCT coefficients per block and fits the DWT threshold on 512 x 512 |

## Left out

- `dctTransform` and `inverseDCTTransform` (cosine sums in double precision) are not modelled
  as code. The codec takes them as function parameters `dct` and `idct`. The DCT round trip is
  proved for any pair where `idct` undoes `dct`.
- Floating point: `double` arithmetic is modelled over exact reals. The Haar round trips are
  proved for an exact scale (2 s^2 = 1). The source's 0.7071067811865476 is not exact
  (`Haar.HaarScaleIsApproximate`), so its round trip is only approximate:
  `Haar.HaarInverseForwardScales` gives the exact 2 s^2 factor of one step for any s, but no
  lemma bounds the codec's round-trip error with 0.7071067811865476, because
  `DwtCodec.DwtRoundTripPixel` requires an exact scale.
- Dwt.DwtRoundTrip and DwtCodec.DwtRoundTripPixel: both require an exact scale (2 s^2 = 1),
  so neither covers the codec with its own constant 0.7071067811865476; they state the round
  trip of the transform structure, not of the source's floating-point values.
- `Math.sqrt` and `Math.log` in `applyWaveletThreshold` are modelled as the integer floor square
  root and floor log2. Double-precision rounding of those is not modelled.
- `Math.round(n / 4096.0f)` is modelled as exact rounding of n / 4096. float rounding is not
  modelled; it is exact for the budgets the program uses (|n| <= 2^24).
- DctCodec.DecodeDct: requires n >= -2048. A smaller budget rounds to a negative count, which
  the source's threshold loop would use as an array index and fail on.
- DwtCodec.DecodeDwt: requires `BudgetFits(n, w, h)`. A budget of at least the pixel count
  w * h is accepted as it is. A budget below the pixel count must be at least 1, because the
  source's threshold divides by its square root; and when the threshold zeroes a level, the
  plane must be at least 512 x 512, because the threshold's loops walk that square. `main`
  meets both (`Assignment.DecoderBudgetsFit`).
- Dwt.ForwardDwt and DwtCodec.EncodeDwt: require at least one row, because `forwardDWT` reads
  `data[0].length` and throws on an empty plane. `inverseDWTTransform` needs no such bound: its
  loop test fails on `rows <= data.length` before it reads `data[0]`.
- DctCodec.EncodeDct and DctCodec.DecodeDct: require width and height to be multiples of 8. The
  source reads past the image otherwise. `main` uses 512 x 512.
- `int` overflow of `width * height * 3` and of other index arithmetic is not modelled;
  indices are unbounded integers.
- Images.NewImage: accepts a width or height of 0, and so do `DctCodec.DecodeDct` and
  `DwtCodec.DecodeDwt`, which call it; `new BufferedImage` throws IllegalArgumentException
  there. `main` only creates 512 x 512 images.
- The file system: `readImageRGB` gets the file's contents as an optional byte sequence
  (`None` is a file that cannot be opened).
- Swing windows (`showImages`, `createDisplayFrame`), `combineImages`, console output and
  `Thread.sleep` are not modelled. A progressive frame is the decoded image handed to the
  window; a balanced frame is the pair `combineImages` would place side by side.
- `Integer.parseInt` failure and `main`'s catch-all handler are not modelled. The budget is
  taken as already parsed.
