/**
 * `isSimilar(toCompare, goldenImage, maxDifference)`: the size checks, then
 * the comparison of the two thumbnails.
 *
 * The thumbnails come from `Bitmap.createScaledBitmap` and
 * `ThumbnailUtils.extractThumbnail`, library resamplers that are outside
 * this model; they are parameters here, arbitrary bitmaps.
 */
module Matching {
  import opened Bitmaps
  import opened Similarity

  datatype Option<T> = None | Some(value: T)

  /** What `isSimilar` ends with: a failed `checkArgument`, or the thumbnails' comparison. */
  datatype MatchOutcome =
    | IllegalArgument(message: string) // a `checkArgument` throws `IllegalArgumentException`
    | Compared(outcome: Outcome)       // `assertImageSimilar` ran on the thumbnails

  const WidthMessage: string := "Image width's are not equal"
  const HeightMessage: string := "Image height's are not equal"

  /**
   * The two `checkArgument` calls exactly as written.  `checkArgument(c, m)`
   * throws `IllegalArgumentException(m)` when `c` is false, and the
   * conditions are `width != width` and `height != height`: the check
   * rejects a pair whose widths are equal, or whose heights are equal.
   */
  function SizeCheck(toCompare: Bitmap, goldenImage: Bitmap): (r: Option<string>)
    ensures r == None <==> toCompare.width != goldenImage.width && toCompare.height != goldenImage.height
    ensures r == Some(WidthMessage) <==> toCompare.width == goldenImage.width
  {
    if !(toCompare.width != goldenImage.width) then Some(WidthMessage)
    else if !(toCompare.height != goldenImage.height) then Some(HeightMessage)
    else None
  }

  /** As written, an image is never compared with an image of its own size, itself included. */
  lemma SameSizeRejected(toCompare: Bitmap, goldenImage: Bitmap)
    requires toCompare.width == goldenImage.width && toCompare.height == goldenImage.height
    ensures SizeCheck(toCompare, goldenImage) == Some(WidthMessage)
  {
  }

  /**
   * The checks as their messages say they were meant: throw when the widths
   * are not equal, then when the heights are not equal.
   */
  function CorrectedSizeCheck(toCompare: Bitmap, goldenImage: Bitmap): (r: Option<string>)
    ensures r == None <==> toCompare.width == goldenImage.width && toCompare.height == goldenImage.height
    ensures r == Some(WidthMessage) <==> toCompare.width != goldenImage.width
  {
    if toCompare.width != goldenImage.width then Some(WidthMessage)
    else if toCompare.height != goldenImage.height then Some(HeightMessage)
    else None
  }

  /** The shipped and the corrected checks never let the same pair through. */
  lemma SizeChecksDisagree(toCompare: Bitmap, goldenImage: Bitmap)
    ensures SizeCheck(toCompare, goldenImage) == None ==> CorrectedSizeCheck(toCompare, goldenImage).Some?
    ensures CorrectedSizeCheck(toCompare, goldenImage) == None ==> SizeCheck(toCompare, goldenImage).Some?
  {
  }

  /**
   * `isSimilar(toCompare, goldenImage, maxDifference)` with the size checks
   * as written.  The candidate's thumbnail is passed to `assertImageSimilar`
   * in its `goldenImage` position; when both thumbnails are ARGB_8888 this
   * makes no difference to the outcome.
   */
  method IsSimilar(toCompare: Bitmap, goldenImage: Bitmap, maxDifference: real,
                   toCompareThumbnail: Bitmap, goldenThumbnail: Bitmap)
    returns (result: MatchOutcome)
    requires Valid(toCompareThumbnail) && Valid(goldenThumbnail)
    ensures toCompare.width == goldenImage.width ==> result == IllegalArgument(WidthMessage)
    ensures toCompare.width != goldenImage.width && toCompare.height == goldenImage.height
      ==> result == IllegalArgument(HeightMessage)
    ensures toCompare.width != goldenImage.width && toCompare.height != goldenImage.height
      ==> result == Compared(Compare(toCompareThumbnail, goldenThumbnail, maxDifference))
    ensures toCompare.width != goldenImage.width && toCompare.height != goldenImage.height
      && toCompareThumbnail.config == ARGB_8888 && goldenThumbnail.config == ARGB_8888
      ==> result == Compared(Compare(goldenThumbnail, toCompareThumbnail, maxDifference))
  {
    var check := SizeCheck(toCompare, goldenImage);
    if check.Some? {
      return IllegalArgument(check.value);
    }
    var outcome, deltaImage := AssertImageSimilar(toCompareThumbnail, goldenThumbnail, maxDifference);
    result := Compared(outcome);
    if toCompareThumbnail.config == ARGB_8888 && goldenThumbnail.config == ARGB_8888 {
      CompareSymmetric(toCompareThumbnail, goldenThumbnail, maxDifference);
    }
  }

  /**
   * `isSimilar` with the corrected size checks: only images of the same
   * size reach the comparison of their thumbnails.
   */
  method CorrectedIsSimilar(toCompare: Bitmap, goldenImage: Bitmap, maxDifference: real,
                            toCompareThumbnail: Bitmap, goldenThumbnail: Bitmap)
    returns (result: MatchOutcome)
    requires Valid(toCompareThumbnail) && Valid(goldenThumbnail)
    ensures toCompare.width != goldenImage.width ==> result == IllegalArgument(WidthMessage)
    ensures toCompare.width == goldenImage.width && toCompare.height != goldenImage.height
      ==> result == IllegalArgument(HeightMessage)
    ensures toCompare.width == goldenImage.width && toCompare.height == goldenImage.height
      ==> result == Compared(Compare(toCompareThumbnail, goldenThumbnail, maxDifference))
  {
    var check := CorrectedSizeCheck(toCompare, goldenImage);
    if check.Some? {
      return IllegalArgument(check.value);
    }
    var outcome, deltaImage := AssertImageSimilar(toCompareThumbnail, goldenThumbnail, maxDifference);
    result := Compared(outcome);
  }
}
