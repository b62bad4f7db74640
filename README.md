# Golden-image comparison, modelled in Dafny

EspressoGoldenImage is an Android test helper. It compares a screenshot with
a stored "golden" image and fails the test when the two differ by more than
a percentage. This project models the pixel-difference engine of
`ImageUtils` and the integer helpers beside it, and proves what they compute.

- **`assertImageSimilar`** scans the overlap of two ARGB_8888 bitmaps. The
  overlap is the smaller width by the smaller height. For each overlap pixel
  it adds the absolute red, green and blue differences to `delta`. A pixel
  adds nothing when the two words are bit-identical or both fully
  transparent. The scan also paints a diff pixel into the middle third of a
  delta image that is three overlaps wide. At the end it compares
  `delta * 100 / total` with the threshold, where `total` allots 3 × 256
  levels per pixel. The model has the nested loop, with the inner loop in
  its own method `ScanRow` and the loop body in `ComparePixel`. The methods
  write an `array2` in place. Each is proved against specification
  functions (`Delta`, `Total`, `ExpectedDiff`, `Compare`), and the lemmas
  prove what those functions promise.
- **`isSimilar(Bitmap, Bitmap, double)`** runs two `checkArgument` size checks
  and then compares the two thumbnails. The checks are inverted: they reject
  a pair whose widths are equal or whose heights are equal (see Findings).
- **`calculateInSampleSize`** doubles a sampling factor while both halved
  dimensions, divided by it, are still larger than requested. The model
  includes Java's truncating division.
- **`getName`** returns the suffix after the last `/`.

Modules: `Pixels` (colour words, channels, per-pixel delta and diff pixel),
`Bitmaps` (the bitmap value), `Similarity` (the scan, its specification and
its lemmas), `Matching` (`isSimilar`), `SampleSize`, `Names`.

Modelling choices:

- Colour words are unsigned 32-bit numbers, and `(p & mask) >>> shift` is
  division and remainder.
- Java's `128 + d & 0xFF` parses as `(128 + d) & 0xFF`. On a two's-complement
  `int` this is the non-negative remainder modulo 256.
- The OR in `avgAlpha | newR << 16 | newG << 8 | newB` combines disjoint
  bits, so it is a weighted sum.
- A bitmap is a value with `height` rows of `width` words. `getPixel(x, y)`
  is `rows[y][x]`.
- The delta image starts at 0, the transparent pixel that
  `Bitmap.createBitmap` fills a new bitmap with.
- Every exception is an outcome value:
  - `ConfigMismatch` is the failed `assertEquals(ARGB_8888, …)`;
  - `Differ(percent)` is `fail(...)`;
  - `IllegalArgument(message)`, an outcome of `isSimilar` only, is a failed
    `checkArgument`; `Compared(outcome)` carries the thumbnails' comparison.
- The format check is therefore an error outcome rather than a precondition.
- The percentage is the exact rational `delta * 100 / total`. `ThresholdExact`
  proves that the test is `delta * 100 > max * total`.

All-black against all-white differs by 76500 / 768 = 99.609375%, not 100%,
because `total` allots 3 × 256 levels per pixel and a pixel adds at most
3 × 255 (`BlackAgainstWhite`).

## Model

Every row cites `ImageUtils.java`.

| member | source | states |
|---|---|---|
| Pixels.UnpackPack | library/src/main/java/io/jug6ernaut/espressogoldenimagematcher/ImageUtils.java:117-118 | unpacking `avgAlpha \| newR << 16 \| newG << 8 \| newB` gives back exactly the four bytes that were packed |
| Pixels.PackOfChannels | library/src/main/java/io/jug6ernaut/espressogoldenimagematcher/ImageUtils.java:111-118 | every colour word is the packing of its own alpha, red, green and blue bytes as the masks extract them |
| Pixels.Bias | library/src/main/java/io/jug6ernaut/espressogoldenimagematcher/ImageUtils.java:112-116 | `(128 + d) & 0xFF` is a byte; it is `128 + d` for d in [-128, 128) and wraps by 256 below and above |
| Pixels.PixelDelta | library/src/main/java/io/jug6ernaut/espressogoldenimagematcher/ImageUtils.java:102-122 | one pixel adds at most 3 * 255 to `delta` |
| Pixels.PixelDeltaZero | library/src/main/java/io/jug6ernaut/espressogoldenimagematcher/ImageUtils.java:102-122 | a pixel adds 0 exactly when it is bit-identical, both alphas are 0, or its red, green and blue bytes agree (alpha alone never counts) |
| Pixels.DiffPixelChannels | library/src/main/java/io/jug6ernaut/espressogoldenimagematcher/ImageUtils.java:102-119 | the diff pixel is alpha 0, grey 128 for a skipped pixel; otherwise its alpha is the rounded-down mean alpha and each colour byte is `(128 + (image - golden)) & 0xFF` |
| Pixels.PixelDeltaSymmetric | library/src/main/java/io/jug6ernaut/espressogoldenimagematcher/ImageUtils.java:102-122 | swapping golden and image does not change what a pixel adds |
| Pixels.DiffPixelReadable | library/src/main/java/io/jug6ernaut/espressogoldenimagematcher/ImageUtils.java:111-118 | for channel moves in [-128, 128) each diff byte minus 128 is the signed difference, and the diff alpha does not depend on the argument order |
| Pixels.Alpha | library/src/main/java/io/jug6ernaut/espressogoldenimagematcher/ImageUtils.java:117 | (definition) `(p & 0xFF000000) >>> 24`, the alpha byte, as division by 2^24 |
| Pixels.Red | library/src/main/java/io/jug6ernaut/espressogoldenimagematcher/ImageUtils.java:111 | (definition) `(p & 0xFF0000) >>> 16`, the red byte, as division by 2^16 and remainder 256 |
| Pixels.Green | library/src/main/java/io/jug6ernaut/espressogoldenimagematcher/ImageUtils.java:113 | (definition) `(p & 0x00FF00) >>> 8`, the green byte |
| Pixels.Blue | library/src/main/java/io/jug6ernaut/espressogoldenimagematcher/ImageUtils.java:115 | (definition) `p & 0x0000FF`, the blue byte |
| Pixels.Pack | library/src/main/java/io/jug6ernaut/espressogoldenimagematcher/ImageUtils.java:118 | (definition) `avgAlpha \| newR << 16 \| newG << 8 \| newB` as the weighted sum of disjoint bytes; its properties are `UnpackPack` and `PackOfChannels` |
| Pixels.Unchanged | library/src/main/java/io/jug6ernaut/espressogoldenimagematcher/ImageUtils.java:102-109 | (definition) the two skip tests: the words are equal, or both alpha bytes are 0 |
| Pixels.DiffPixel | library/src/main/java/io/jug6ernaut/espressogoldenimagematcher/ImageUtils.java:103-119 | (definition) the word passed to `setPixel`: `0x00808080` for a skipped pixel, otherwise the packed mean alpha and biased differences; its bytes are stated by `DiffPixelChannels` |
| Pixels.TransparentPixelsIgnored | library/src/main/java/io/jug6ernaut/espressogoldenimagematcher/ImageUtils.java:106-109 | two pixels whose alpha bytes are both 0 add nothing and get the marker `0x00808080`, whatever their colours |
| Pixels.TransparentRedIgnored | library/src/main/java/io/jug6ernaut/espressogoldenimagematcher/ImageUtils.java:106-109 | transparent black against transparent red: the red bytes differ by 255 and the pixel adds 0 |
| Pixels.PixelDeltaMonotone | library/src/main/java/io/jug6ernaut/espressogoldenimagematcher/ImageUtils.java:111-122 | a pixel moved further from the golden one (same alpha, not both transparent, no channel closer, one channel further) adds strictly more |
| Similarity.RowDelta | library/src/main/java/io/jug6ernaut/espressogoldenimagematcher/ImageUtils.java:99-123 | the first `n` pixels of an overlap row add at most 765 * n |
| Similarity.Total | library/src/main/java/io/jug6ernaut/espressogoldenimagematcher/ImageUtils.java:126 | `total` is positive, so the percentage is always defined |
| Similarity.ComparePixel | library/src/main/java/io/jug6ernaut/espressogoldenimagematcher/ImageUtils.java:100-122 | the loop body paints `DiffPixel` and adds `PixelDelta`, including both early `continue` paths that paint `0x00808080` and add nothing |
| Similarity.ScanRow | library/src/main/java/io/jug6ernaut/espressogoldenimagematcher/ImageUtils.java:99-123 | the inner loop adds row `y`'s pixel deltas to `delta` and writes exactly columns `imageWidth .. 2*imageWidth-1` of row `y`; every other cell keeps its old value |
| Similarity.AssertImageSimilar | library/src/main/java/io/jug6ernaut/espressogoldenimagematcher/ImageUtils.java:79-137 | the outcome is the format check then the threshold test on `Delta` and `Total`; the delta image exists exactly when the format check passed, is `3*imageWidth` by `imageHeight`, holds the diff pixels in its middle third and 0 in the outer thirds |
| Similarity.ThresholdExact | library/src/main/java/io/jug6ernaut/espressogoldenimagematcher/ImageUtils.java:126-135 | the comparison fails exactly when `delta * 100 > max * total`, passes exactly when `<=`, and a percentage equal to the threshold passes |
| Similarity.PercentOfBoundedDelta | library/src/main/java/io/jug6ernaut/espressogoldenimagematcher/ImageUtils.java:120-127 | at most 765 per pixel against 768 allotted gives a percentage in [0, 100) |
| Similarity.PercentOfUniformDelta | library/src/main/java/io/jug6ernaut/espressogoldenimagematcher/ImageUtils.java:126-127 | `k` per pixel over `n` pixels is `k * 100 / 768` percent for every `n` |
| Similarity.TotalPerPixel | library/src/main/java/io/jug6ernaut/espressogoldenimagematcher/ImageUtils.java:126 | `total` is 768 times the overlap area, and the area is positive |
| Similarity.RowDeltaCongruent | library/src/main/java/io/jug6ernaut/espressogoldenimagematcher/ImageUtils.java:99-123 | two pairs with the same per-pixel deltas have the same row sums |
| Similarity.RegionDeltaCongruent | library/src/main/java/io/jug6ernaut/espressogoldenimagematcher/ImageUtils.java:98-124 | two pairs with the same per-pixel deltas have the same region sums |
| Similarity.DeltaSymmetric | library/src/main/java/io/jug6ernaut/espressogoldenimagematcher/ImageUtils.java:84-126 | `delta` and `total` are unchanged when the two images are swapped |
| Similarity.CompareSymmetric | library/src/main/java/io/jug6ernaut/espressogoldenimagematcher/ImageUtils.java:79-135 | with both images ARGB_8888 the outcome does not depend on which one is passed as `goldenImage` |
| Similarity.OnlyOverlapRead | library/src/main/java/io/jug6ernaut/espressogoldenimagematcher/ImageUtils.java:84-101 | only the overlap is read: pairs that agree on the golden format, the overlap size and every overlap pixel have the same outcome and the same delta image |
| Similarity.RowDeltaUniform | library/src/main/java/io/jug6ernaut/espressogoldenimagematcher/ImageUtils.java:99-123 | a row where every pixel adds `k` sums to `k * n` |
| Similarity.RegionDeltaUniform | library/src/main/java/io/jug6ernaut/espressogoldenimagematcher/ImageUtils.java:98-124 | a region where every pixel adds `k` sums to `k` times its area |
| Similarity.UniformPercent | library/src/main/java/io/jug6ernaut/espressogoldenimagematcher/ImageUtils.java:97-127 | when every overlap pixel adds `k`, `delta` is `k` times the area and the percentage is `k * 100 / 768` |
| Similarity.IdenticalImagesPass | library/src/main/java/io/jug6ernaut/espressogoldenimagematcher/ImageUtils.java:97-136 | an image compared with itself has `delta` 0 and passes every non-negative threshold |
| Similarity.RegionDeltaBound | library/src/main/java/io/jug6ernaut/espressogoldenimagematcher/ImageUtils.java:98-124 | the first `m` rows add at most 765 times their area |
| Similarity.PercentBelowHundred | library/src/main/java/io/jug6ernaut/espressogoldenimagematcher/ImageUtils.java:97-127 | `delta <= 765 * w * h < total`, so the percentage lies in [0, 100) |
| Similarity.BlackWhitePixel | library/src/main/java/io/jug6ernaut/espressogoldenimagematcher/ImageUtils.java:111-122 | opaque black against opaque white adds 765 |
| Similarity.BlackAgainstWhite | library/src/main/java/io/jug6ernaut/espressogoldenimagematcher/ImageUtils.java:125-135 | all-black against all-white differs by 99.609375 percent and fails the default threshold 0.7 |
| Similarity.OverlapWidth | library/src/main/java/io/jug6ernaut/espressogoldenimagematcher/ImageUtils.java:84 | (definition) `imageWidth = Math.min(goldenImage.getWidth(), image.getWidth())` |
| Similarity.OverlapHeight | library/src/main/java/io/jug6ernaut/espressogoldenimagematcher/ImageUtils.java:85 | (definition) `imageHeight = Math.min(goldenImage.getHeight(), image.getHeight())` |
| Similarity.RegionDelta | library/src/main/java/io/jug6ernaut/espressogoldenimagematcher/ImageUtils.java:97-124 | (definition) `delta` after the first `m` rows of the outer loop: the sum of their row sums |
| Similarity.Delta | library/src/main/java/io/jug6ernaut/espressogoldenimagematcher/ImageUtils.java:97-124 | (definition) the final `delta`, the sum of `PixelDelta` over the whole overlap; `AssertImageSimilar` is proved to compute it |
| Similarity.PercentDifference | library/src/main/java/io/jug6ernaut/espressogoldenimagematcher/ImageUtils.java:127 | (definition) `delta * 100 / (double) total` as an exact rational |
| Similarity.Threshold | library/src/main/java/io/jug6ernaut/espressogoldenimagematcher/ImageUtils.java:129-135 | (definition) `Differ(percent)` when the percentage exceeds the threshold, else `Similar`; characterised by `ThresholdExact` |
| Similarity.Compare | library/src/main/java/io/jug6ernaut/espressogoldenimagematcher/ImageUtils.java:79-135 | (definition) the format check, then `Threshold` on `Delta` and `Total`; `AssertImageSimilar` is proved to return it |
| Similarity.ExpectedDiff | library/src/main/java/io/jug6ernaut/espressogoldenimagematcher/ImageUtils.java:91-119 | (definition) the final delta-image cell at (row, col): the diff pixel of overlap pixel (col - imageWidth, row) in the middle third, 0 in the outer thirds |
| Similarity.QuotientIncreasing | library/src/main/java/io/jug6ernaut/espressogoldenimagematcher/ImageUtils.java:127 | dividing by the same positive `total` keeps a strict order of deltas |
| Similarity.RowDeltaMonotone | library/src/main/java/io/jug6ernaut/espressogoldenimagematcher/ImageUtils.java:99-123 | a row of a pair that adds at least as much at every pixel sums to at least as much, and to strictly more when one of its pixels adds strictly more |
| Similarity.RegionDeltaMonotone | library/src/main/java/io/jug6ernaut/espressogoldenimagematcher/ImageUtils.java:98-124 | the same for the first `m` rows |
| Similarity.DeltaMonotone | library/src/main/java/io/jug6ernaut/espressogoldenimagematcher/ImageUtils.java:97-127 | when pair 2 adds at least as much as pair 1 at every overlap pixel and strictly more at one, its `delta` and its percentage are strictly larger, with the same `total` |
| Bitmaps.Min | library/src/main/java/io/jug6ernaut/espressogoldenimagematcher/ImageUtils.java:84-85 | `Math.min` is at most both arguments and equal to one of them |
| Matching.SizeCheck | library/src/main/java/io/jug6ernaut/espressogoldenimagematcher/ImageUtils.java:61-62 | the two `checkArgument` calls as written: a pair passes exactly when both its widths and its heights differ, and equal widths are reported first |
| Matching.SameSizeRejected | library/src/main/java/io/jug6ernaut/espressogoldenimagematcher/ImageUtils.java:61 | as written, two images of the same size are rejected with "Image width's are not equal" |
| Matching.CorrectedSizeCheck | library/src/main/java/io/jug6ernaut/espressogoldenimagematcher/ImageUtils.java:61-62 | the checks as their messages intend: pass exactly when both sizes are equal, and report the width first |
| Matching.SizeChecksDisagree | library/src/main/java/io/jug6ernaut/espressogoldenimagematcher/ImageUtils.java:61-62 | no pair passes both the shipped and the corrected checks |
| Matching.IsSimilar | library/src/main/java/io/jug6ernaut/espressogoldenimagematcher/ImageUtils.java:58-77 | equal widths throw the width message; otherwise equal heights throw the height message; otherwise the outcome is the comparison of the candidate's thumbnail (as `goldenImage`) with the golden thumbnail, which equals the comparison in the other order when both are ARGB_8888 |
| Matching.CorrectedIsSimilar | library/src/main/java/io/jug6ernaut/espressogoldenimagematcher/ImageUtils.java:58-77 | with the corrected checks: differing widths throw the width message, then differing heights the height message, and only same-size images reach the comparison of their thumbnails |
| SampleSize.CalculateInSampleSize | library/src/main/java/io/jug6ernaut/espressogoldenimagematcher/ImageUtils.java:193-213 | the result is a power of two, at least 1; it is 1 when the image is within the request; at the result the loop condition is false; at every smaller power of two it was true |
| SampleSize.PowerOfTwoGap | library/src/main/java/io/jug6ernaut/espressogoldenimagematcher/ImageUtils.java:206-209 | no power of two lies strictly between `s` and `2 * s`, so doubling skips no candidate |
| SampleSize.StillLargerAntitone | library/src/main/java/io/jug6ernaut/espressogoldenimagematcher/ImageUtils.java:206-207 | once the loop condition holds at a factor, it holds at every smaller positive factor |
| SampleSize.SmallerFactorsStillLarger | library/src/main/java/io/jug6ernaut/espressogoldenimagematcher/ImageUtils.java:206-209 | when the condition held at half of a power of two, it held at every power of two below it |
| SampleSize.WithinRequest | library/src/main/java/io/jug6ernaut/espressogoldenimagematcher/ImageUtils.java:199-201 | a height within the request never satisfies the loop condition, whatever the factor |
| SampleSize.JavaDiv | library/src/main/java/io/jug6ernaut/espressogoldenimagematcher/ImageUtils.java:201-207 | (definition) Java `int` division, truncating toward zero, written out from Dafny's floor division |
| SampleSize.IsPowerOfTwo | library/src/main/java/io/jug6ernaut/espressogoldenimagematcher/ImageUtils.java:208 | (definition) 1, 2, 4, …: the values `inSampleSize *= 2` reaches from 1 |
| SampleSize.StillLarger | library/src/main/java/io/jug6ernaut/espressogoldenimagematcher/ImageUtils.java:206-207 | (definition) the loop condition `halfHeight / s > reqHeight && halfWidth / s > reqWidth` |
| Names.LastIndexOf | library/src/main/java/io/jug6ernaut/espressogoldenimagematcher/ImageUtils.java:160 | `lastIndexOf` gives the last position of the character, or -1 exactly when it does not occur |
| Names.GetName | library/src/main/java/io/jug6ernaut/espressogoldenimagematcher/ImageUtils.java:159-161 | the name is the longest separator-free suffix of the path, and the whole path when it has no separator |
| Names.GetNameOfJoin | library/src/main/java/io/jug6ernaut/espressogoldenimagematcher/ImageUtils.java:159-161 | `getName(directory + "/" + name)` is `name` for any separator-free name |

## Left out

- Decoding and file I/O: `isSimilar(String, Bitmap)`, `decodeSampledBitmapFromResource` and `BitmapFactory.decodeFile` are platform codecs.
- Thumbnail creation: `Bitmap.createScaledBitmap`, `ThumbnailUtils.extractThumbnail` and the `double` scale to 500 pixels are floating point and library resampling. `Matching.IsSimilar` takes the two thumbnails as arbitrary valid (non-empty) bitmaps.
- `saveImage` (JPEG files on external storage) and `Bitmap.recycle` are I/O and memory management. The model's outcome records only whether the test fails and by how much.
- Similarity.AssertImageSimilar: the percentage is the exact rational `delta * 100 / total`, not the `float` rounding of a `double` quotient. The `%.1f` formatting of the failure message is not modelled.
- Similarity.Total: the source computes `imageHeight * imageWidth` in 32-bit `int` before widening to `long`. `3 * imageWidth` is also an `int`. Both would wrap only for overlaps beyond about 46340 × 46340 pixels, far above any thumbnail, so integers are unbounded here. The `long delta` (at most 765 per pixel) cannot overflow.
- `@NonNull` and `checkNotNull` in `isSimilar`: a Dafny value is never null, so the null-argument paths are absent.
- Matching.IsSimilar: the zero-size-thumbnail exception is not modelled. A pair that passes the inverted checks can still have a thumbnail side of 0, e.g. a 1 × 1000 candidate against a 2 × 999 golden image gives `(int) (0.5 * 1) == 0`, and `Bitmap.createScaledBitmap` then throws `IllegalArgumentException`; the model's thumbnails are parameters and always non-empty.
- SampleSize.CalculateInSampleSize: requires `reqWidth >= 0 && reqHeight >= 0`, which the public Java method does not. For a 10 × 10 image at -1 × -1 the loop condition stays true, `inSampleSize *= 2` wraps to `Integer.MIN_VALUE` and then to 0, and `halfHeight / inSampleSize` throws `ArithmeticException`; the model has unbounded integers and excludes negative requests instead of modelling that wrap-around and exception.
- Matching.IsSimilar: the model passes the `IllegalArgumentException` of the size checks through as an outcome. It does not model who catches what.
- Bitmap storage: an Android bitmap may store pixels premultiplied. The input bitmaps are the unpremultiplied words `getPixel` returns. The delta image, by contrast, holds the words as written to `setPixel`. A premultiplied ARGB_8888 bitmap would store an alpha-0 word such as the marker `0x00808080` as 0, and the model does not capture that conversion.
- `getStatusBarHeight` and `getNavBarHeight` are Android resource lookups.
- `GoldenImageMatcher.java` is not part of this model. It is Espresso/Hamcrest glue and view screenshot capture.

## Findings

| source | as written | input that shows it | evidently intended | confidence | as-written member | corrected member |
|---|---|---|---|---|---|---|
| library/src/main/java/io/jug6ernaut/espressogoldenimagematcher/ImageUtils.java:61-62 | `checkArgument(a.getWidth() != b.getWidth(), "Image width's are not equal")` throws when the widths are EQUAL, and the height check likewise | two 100 × 100 bitmaps: the call throws "Image width's are not equal"; only pairs that differ in both width and height reach the comparison | throw when the widths (then the heights) are NOT equal, i.e. `checkArgument(a.getWidth() == b.getWidth(), …)` | high; not executed | Matching.SizeCheck (exhibited by Matching.SameSizeRejected), used by Matching.IsSimilar | Matching.CorrectedSizeCheck (with Matching.SizeChecksDisagree), used by Matching.CorrectedIsSimilar |
