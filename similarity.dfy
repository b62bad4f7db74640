/**
 * The similarity engine, `assertImageSimilar`: scan the overlap of two
 * bitmaps, add up the per-pixel colour differences, paint a delta image and
 * fail when the difference, as a percentage of `3 * 256` levels per pixel,
 * exceeds the threshold.
 *
 * `Delta`, `Total`, `ExpectedDiff` and `Compare` are the specification;
 * the method `AssertImageSimilar` is the scan itself and is proved to
 * compute them.  The lemmas at the end state what the specification
 * promises.
 */
module Similarity {
  import opened Pixels
  import opened Bitmaps

  /** What `assertImageSimilar` ends with; each non-`Similar` case is a thrown exception. */
  datatype Outcome =
    | Similar                          // returns normally
    | ConfigMismatch                   // `assertEquals(ARGB_8888, config)` throws, empty message
    | Differ(percent: real)            // `fail("Images differ (by ...%)")`

  /** `imageWidth = Math.min(goldenImage.getWidth(), image.getWidth())` */
  function OverlapWidth(golden: Bitmap, image: Bitmap): nat {
    Min(golden.width, image.width)
  }

  /** `imageHeight = Math.min(goldenImage.getHeight(), image.getHeight())` */
  function OverlapHeight(golden: Bitmap, image: Bitmap): nat {
    Min(golden.height, image.height)
  }

  /** What the first `n` pixels of overlap row `y` add to `delta`. */
  function RowDelta(golden: Bitmap, image: Bitmap, y: nat, n: nat): (d: nat)
    requires Valid(golden) && Valid(image)
    requires y < OverlapHeight(golden, image) && n <= OverlapWidth(golden, image)
    ensures d <= 765 * n
  {
    if n == 0 then 0
    else RowDelta(golden, image, y, n - 1) + PixelDelta(PixelAt(golden, n - 1, y), PixelAt(image, n - 1, y))
  }

  /** What the first `m` rows of the overlap add to `delta`. */
  function RegionDelta(golden: Bitmap, image: Bitmap, m: nat): nat
    requires Valid(golden) && Valid(image)
    requires m <= OverlapHeight(golden, image)
  {
    if m == 0 then 0
    else RegionDelta(golden, image, m - 1) + RowDelta(golden, image, m - 1, OverlapWidth(golden, image))
  }

  /** The final value of `delta`: the sum over the whole overlap. */
  function Delta(golden: Bitmap, image: Bitmap): nat
    requires Valid(golden) && Valid(image)
  {
    RegionDelta(golden, image, OverlapHeight(golden, image))
  }

  /** `imageHeight * imageWidth * 3L * 256L`: three channels, 256 levels each. */
  function Total(golden: Bitmap, image: Bitmap): (t: nat)
    requires Valid(golden) && Valid(image)
    ensures t > 0
  {
    var h, w := OverlapHeight(golden, image), OverlapWidth(golden, image);
    MulPositive(h, w);
    h * w * 3 * 256
  }

  /** `delta * 100 / (double) total`, exactly. */
  function PercentDifference(delta: nat, total: nat): real
    requires total > 0
  {
    (delta * 100) as real / total as real
  }

  /** `if (percentDifference > maxPercentDifferent) fail(...)` */
  function Threshold(delta: nat, total: nat, maxPercentDifferent: real): Outcome
    requires total > 0
  {
    var percent := PercentDifference(delta, total);
    if percent > maxPercentDifferent then Differ(percent) else Similar
  }

  /** The outcome of `assertImageSimilar(goldenImage, image, maxPercentDifferent)`. */
  function Compare(golden: Bitmap, image: Bitmap, maxPercentDifferent: real): Outcome
    requires Valid(golden) && Valid(image)
  {
    if golden.config != ARGB_8888 then ConfigMismatch
    else Threshold(Delta(golden, image), Total(golden, image), maxPercentDifferent)
  }

  /**
   * The delta image is three overlaps wide; the diff of overlap pixel
   * (x, y) goes to column `imageWidth + x` of row `y`, and the first and
   * last thirds keep the transparent value 0 the bitmap was created with.
   */
  function ExpectedDiff(golden: Bitmap, image: Bitmap, row: nat, col: nat): Word
    requires Valid(golden) && Valid(image)
    requires row < OverlapHeight(golden, image) && col < 3 * OverlapWidth(golden, image)
  {
    var w := OverlapWidth(golden, image);
    if w <= col < 2 * w then DiffPixel(PixelAt(golden, col - w, row), PixelAt(image, col - w, row))
    else 0
  }

  /** The delta image has the overlap's height, three times its width, and holds `ExpectedDiff`. */
  ghost predicate IsDeltaImage(deltaImage: array2<Word>, golden: Bitmap, image: Bitmap)
    requires Valid(golden) && Valid(image)
    reads deltaImage
  {
    && deltaImage.Length0 == OverlapHeight(golden, image)
    && deltaImage.Length1 == 3 * OverlapWidth(golden, image)
    && forall row: nat, col: nat | row < deltaImage.Length0 && col < deltaImage.Length1 ::
         deltaImage[row, col] == ExpectedDiff(golden, image, row, col)
  }

  /**
   * The body of the inner loop of `assertImageSimilar`: the diff pixel
   * to paint for one overlap pixel and what the pixel adds to `delta`.
   */
  method ComparePixel(goldenRgb: Word, rgb: Word) returns (newRgb: Word, pixelDelta: nat)
    ensures newRgb == DiffPixel(goldenRgb, rgb)
    ensures pixelDelta == PixelDelta(goldenRgb, rgb)
  {
    if goldenRgb == rgb {
      return UnchangedMarker, 0;
    }
    // If the pixels have no opacity, colours are not compared
    if Alpha(goldenRgb) == 0 && Alpha(rgb) == 0 {
      return UnchangedMarker, 0;
    }
    var deltaR := Red(rgb) - Red(goldenRgb);
    var newR := Bias(deltaR);
    var deltaG := Green(rgb) - Green(goldenRgb);
    var newG := Bias(deltaG);
    var deltaB := Blue(rgb) - Blue(goldenRgb);
    var newB := Bias(deltaB);
    var avgAlpha := (Alpha(goldenRgb) + Alpha(rgb)) / 2;
    newRgb := Pack(avgAlpha, newR, newG, newB);
    pixelDelta := 0;
    pixelDelta := pixelDelta + Abs(deltaR);
    pixelDelta := pixelDelta + Abs(deltaG);
    pixelDelta := pixelDelta + Abs(deltaB);
  }

  /**
   * The inner loop of `assertImageSimilar` over row `y` of the overlap: it
   * paints the row's middle third and adds the row's pixels to `delta`.
   */
  method ScanRow(goldenImage: Bitmap, image: Bitmap, deltaImage: array2<Word>, y: nat, delta0: nat)
    returns (delta: nat)
    requires Valid(goldenImage) && Valid(image)
    requires y < OverlapHeight(goldenImage, image)
    requires deltaImage.Length0 == OverlapHeight(goldenImage, image)
    requires deltaImage.Length1 == 3 * OverlapWidth(goldenImage, image)
    modifies deltaImage
    ensures delta == delta0 + RowDelta(goldenImage, image, y, OverlapWidth(goldenImage, image))
    ensures forall row: nat, col: nat | row < deltaImage.Length0 && col < deltaImage.Length1 ::
      deltaImage[row, col] ==
        if row == y && OverlapWidth(goldenImage, image) <= col < 2 * OverlapWidth(goldenImage, image)
        then ExpectedDiff(goldenImage, image, row, col)
        else old(deltaImage[row, col])
  {
    var imageWidth := Min(goldenImage.width, image.width);
    delta := delta0;
    var x := 0;
    while x < imageWidth
      invariant 0 <= x <= imageWidth
      invariant delta == delta0 + RowDelta(goldenImage, image, y, x)
      invariant forall row: nat, col: nat | row < deltaImage.Length0 && col < deltaImage.Length1 ::
        deltaImage[row, col] ==
          if row == y && imageWidth <= col < imageWidth + x
          then ExpectedDiff(goldenImage, image, row, col)
          else old(deltaImage[row, col])
    {
      var goldenRgb := PixelAt(goldenImage, x, y);
      var rgb := PixelAt(image, x, y);
      var newRgb, pixelDelta := ComparePixel(goldenRgb, rgb);
      deltaImage[y, imageWidth + x] := newRgb;
      delta := delta + pixelDelta;
      x := x + 1;
    }
  }

  /**
   * `assertImageSimilar`.  The delta image is returned whenever it was
   * created, that is, whenever the format check passed.
   */
  method AssertImageSimilar(goldenImage: Bitmap, image: Bitmap, maxPercentDifferent: real)
    returns (outcome: Outcome, deltaImage: array2?<Word>)
    requires Valid(goldenImage) && Valid(image)
    ensures outcome == Compare(goldenImage, image, maxPercentDifferent)
    ensures deltaImage == null <==> outcome == ConfigMismatch
    ensures deltaImage != null ==> fresh(deltaImage) && IsDeltaImage(deltaImage, goldenImage, image)
  {
    if goldenImage.config != ARGB_8888 {
      return ConfigMismatch, null;
    }
    var imageWidth := Min(goldenImage.width, image.width);
    var imageHeight := Min(goldenImage.height, image.height);
    var width := 3 * imageWidth;
    var height := imageHeight;
    var buffer := new Word[height, width]((_, _) => 0);

    var delta := 0;
    var y := 0;
    while y < imageHeight
      invariant 0 <= y <= imageHeight
      invariant delta == RegionDelta(goldenImage, image, y)
      invariant forall row: nat, col: nat | row < height && col < width ::
        buffer[row, col] == if row < y then ExpectedDiff(goldenImage, image, row, col) else 0
    {
      delta := ScanRow(goldenImage, image, buffer, y, delta);
      y := y + 1;
    }

    assert delta == Delta(goldenImage, image);
    var total := imageHeight * imageWidth * 3 * 256;
    assert total == Total(goldenImage, image);
    var percentDifference := (delta * 100) as real / total as real;
    assert percentDifference == PercentDifference(delta, total);
    if percentDifference > maxPercentDifferent {
      outcome := Differ(percentDifference);
    } else {
      outcome := Similar;
    }
    deltaImage := buffer;
  }

  // ---------------------------------------------------------------------
  // Arithmetic steps, each stated on plain numbers

  lemma MulSucc(a: int, n: int)
    ensures a * n + a == a * (n + 1)
  {
  }

  lemma MulPositive(a: int, b: int)
    requires a > 0 && b > 0
    ensures a * b > 0
  {
  }

  lemma MulDistributes(k: int, a: int, b: int)
    ensures k * a + k * b == k * (a + b)
  {
  }

  /** Dividing by the same positive number keeps a strict order. */
  lemma QuotientIncreasing(a: real, b: real, t: real)
    requires t > 0.0 && a < b
    ensures a / t < b / t
  {
    assert (b / t - a / t) * t == b - a;
  }

  /** For a positive divisor, `x / t > m` is `x > m * t`. */
  lemma QuotientAbove(x: real, t: real, m: real)
    requires t > 0.0
    ensures x / t > m <==> x > m * t
  {
    var q := x / t;
    assert q * t == x;
    if q > m {
      assert (q - m) * t > 0.0;
    } else {
      assert (m - q) * t >= 0.0;
    }
  }

  /** For a positive divisor, `x / t < m` is `x < m * t`. */
  lemma QuotientBelow(x: real, t: real, m: real)
    requires t > 0.0
    ensures x / t < m <==> x < m * t
  {
    var q := x / t;
    assert q * t == x;
    if q < m {
      assert (m - q) * t > 0.0;
    } else {
      assert (q - m) * t >= 0.0;
    }
  }

  lemma QuotientCancels(a: real, b: real, n: real)
    requires b > 0.0 && n > 0.0
    ensures (a * n) / (b * n) == a / b
  {
  }

  // ---------------------------------------------------------------------
  // The threshold test

  /**
   * The percentage test is the exact comparison `delta * 100 > max * total`:
   * the comparison fails exactly above the threshold, and a difference equal
   * to the threshold passes.
   */
  lemma ThresholdExact(delta: nat, total: nat, maxPercentDifferent: real)
    requires total > 0
    ensures Threshold(delta, total, maxPercentDifferent).Differ?
      <==> (delta * 100) as real > maxPercentDifferent * total as real
    ensures Threshold(delta, total, maxPercentDifferent) == Similar
      <==> (delta * 100) as real <= maxPercentDifferent * total as real
    ensures PercentDifference(delta, total) == maxPercentDifferent
      ==> Threshold(delta, total, maxPercentDifferent) == Similar
  {
    QuotientAbove((delta * 100) as real, total as real, maxPercentDifferent);
  }

  /** Below `3 * 255` per pixel against an allotted `3 * 256`, the percentage stays in [0, 100). */
  lemma PercentOfBoundedDelta(delta: nat, n: nat)
    requires 0 < n && delta <= 765 * n
    ensures delta < 768 * n
    ensures 0.0 <= PercentDifference(delta, 768 * n) < 100.0
  {
    var x, t := delta * 100, 768 * n;
    assert x < 100 * t;
    assert x as real < 100.0 * t as real;
    QuotientBelow(x as real, t as real, 100.0);
    QuotientBelow(x as real, t as real, 0.0);
  }

  /** A delta of `k` per pixel over `n` pixels is `k * 100 / 768` percent, whatever `n`. */
  lemma PercentOfUniformDelta(k: nat, n: nat)
    requires n > 0
    ensures PercentDifference(k * n, 768 * n) == (k * 100) as real / 768.0
  {
    assert (k * n) * 100 == (k * 100) * n;
    assert ((k * 100) * n) as real == (k * 100) as real * n as real;
    assert (768 * n) as real == 768.0 * n as real;
    QuotientCancels((k * 100) as real, 768.0, n as real);
  }

  // ---------------------------------------------------------------------
  // What the specification promises

  /** `total` is `3 * 256` levels for every overlap pixel. */
  lemma TotalPerPixel(golden: Bitmap, image: Bitmap)
    requires Valid(golden) && Valid(image)
    ensures Total(golden, image) == 768 * (OverlapWidth(golden, image) * OverlapHeight(golden, image))
    ensures OverlapWidth(golden, image) * OverlapHeight(golden, image) > 0
  {
    MulPositive(OverlapWidth(golden, image), OverlapHeight(golden, image));
  }

  /** The overlaps of two pairs have the same shape and pixel-for-pixel the same deltas. */
  ghost predicate SameDeltas(golden: Bitmap, image: Bitmap, golden2: Bitmap, image2: Bitmap)
    requires Valid(golden) && Valid(image) && Valid(golden2) && Valid(image2)
  {
    && OverlapWidth(golden, image) == OverlapWidth(golden2, image2)
    && OverlapHeight(golden, image) == OverlapHeight(golden2, image2)
    && forall x: nat, y: nat | x < OverlapWidth(golden, image) && y < OverlapHeight(golden, image) ::
         PixelDelta(PixelAt(golden, x, y), PixelAt(image, x, y))
         == PixelDelta(PixelAt(golden2, x, y), PixelAt(image2, x, y))
  }

  lemma {:induction false} RowDeltaCongruent(golden: Bitmap, image: Bitmap, golden2: Bitmap, image2: Bitmap, y: nat, n: nat)
    requires Valid(golden) && Valid(image) && Valid(golden2) && Valid(image2)
    requires SameDeltas(golden, image, golden2, image2)
    requires y < OverlapHeight(golden, image) && n <= OverlapWidth(golden, image)
    ensures RowDelta(golden, image, y, n) == RowDelta(golden2, image2, y, n)
  {
    if n > 0 {
      RowDeltaCongruent(golden, image, golden2, image2, y, n - 1);
    }
  }

  lemma {:induction false} RegionDeltaCongruent(golden: Bitmap, image: Bitmap, golden2: Bitmap, image2: Bitmap, m: nat)
    requires Valid(golden) && Valid(image) && Valid(golden2) && Valid(image2)
    requires SameDeltas(golden, image, golden2, image2)
    requires m <= OverlapHeight(golden, image)
    ensures RegionDelta(golden, image, m) == RegionDelta(golden2, image2, m)
  {
    if m > 0 {
      RegionDeltaCongruent(golden, image, golden2, image2, m - 1);
      RowDeltaCongruent(golden, image, golden2, image2, m - 1, OverlapWidth(golden, image));
    }
  }

  /** `delta` and `total` do not depend on which image is called the golden one. */
  lemma DeltaSymmetric(golden: Bitmap, image: Bitmap)
    requires Valid(golden) && Valid(image)
    ensures Delta(golden, image) == Delta(image, golden)
    ensures Total(golden, image) == Total(image, golden)
  {
    forall x: nat, y: nat | x < OverlapWidth(golden, image) && y < OverlapHeight(golden, image)
      ensures PixelDelta(PixelAt(golden, x, y), PixelAt(image, x, y))
           == PixelDelta(PixelAt(image, x, y), PixelAt(golden, x, y))
    {
      PixelDeltaSymmetric(PixelAt(golden, x, y), PixelAt(image, x, y));
    }
    RegionDeltaCongruent(golden, image, image, golden, OverlapHeight(golden, image));
  }

  /**
   * Swapping the arguments changes nothing but which image's format is
   * checked: with both in ARGB_8888 the outcome is the same.
   */
  lemma CompareSymmetric(golden: Bitmap, image: Bitmap, maxPercentDifferent: real)
    requires Valid(golden) && Valid(image)
    requires golden.config == ARGB_8888 && image.config == ARGB_8888
    ensures Compare(golden, image, maxPercentDifferent) == Compare(image, golden, maxPercentDifferent)
  {
    DeltaSymmetric(golden, image);
  }

  /**
   * Only the overlap is read: two pairs that agree on the golden image's
   * format, on the size of the overlap and on every pixel inside it have
   * the same outcome and the same delta image, whatever lies outside.
   */
  lemma OnlyOverlapRead(golden: Bitmap, image: Bitmap, golden2: Bitmap, image2: Bitmap, maxPercentDifferent: real)
    requires Valid(golden) && Valid(image) && Valid(golden2) && Valid(image2)
    requires golden.config == golden2.config
    requires OverlapWidth(golden, image) == OverlapWidth(golden2, image2)
    requires OverlapHeight(golden, image) == OverlapHeight(golden2, image2)
    requires forall x: nat, y: nat | x < OverlapWidth(golden, image) && y < OverlapHeight(golden, image) ::
      PixelAt(golden, x, y) == PixelAt(golden2, x, y) && PixelAt(image, x, y) == PixelAt(image2, x, y)
    ensures Compare(golden, image, maxPercentDifferent) == Compare(golden2, image2, maxPercentDifferent)
    ensures forall row: nat, col: nat | row < OverlapHeight(golden, image) && col < 3 * OverlapWidth(golden, image) ::
      ExpectedDiff(golden, image, row, col) == ExpectedDiff(golden2, image2, row, col)
  {
    RegionDeltaCongruent(golden, image, golden2, image2, OverlapHeight(golden, image));
  }

  lemma {:induction false} RowDeltaUniform(golden: Bitmap, image: Bitmap, k: nat, y: nat, n: nat)
    requires Valid(golden) && Valid(image)
    requires y < OverlapHeight(golden, image) && n <= OverlapWidth(golden, image)
    requires forall x: nat | x < OverlapWidth(golden, image) :: PixelDelta(PixelAt(golden, x, y), PixelAt(image, x, y)) == k
    ensures RowDelta(golden, image, y, n) == k * n
  {
    if n > 0 {
      RowDeltaUniform(golden, image, k, y, n - 1);
      MulSucc(k, n - 1);
    }
  }

  /** `k*(w*(m-1)) + k*w == k*(w*m)` */
  lemma UniformStep(k: int, w: int, m: int)
    ensures k * (w * (m - 1)) + k * w == k * (w * m)
  {
    MulSucc(w, m - 1);
    MulDistributes(k, w * (m - 1), w);
  }

  lemma {:induction false} RegionDeltaUniform(golden: Bitmap, image: Bitmap, k: nat, m: nat)
    requires Valid(golden) && Valid(image)
    requires m <= OverlapHeight(golden, image)
    requires forall x: nat, y: nat | x < OverlapWidth(golden, image) && y < OverlapHeight(golden, image) ::
      PixelDelta(PixelAt(golden, x, y), PixelAt(image, x, y)) == k
    ensures RegionDelta(golden, image, m) == k * (OverlapWidth(golden, image) * m)
  {
    if m > 0 {
      var w := OverlapWidth(golden, image);
      RegionDeltaUniform(golden, image, k, m - 1);
      RowDeltaUniform(golden, image, k, m - 1, w);
      UniformStep(k, w, m);
    }
  }

  /**
   * Pair 2 has the same overlap as pair 1 and adds at least as much at
   * every overlap pixel.
   */
  ghost predicate DeltasDominate(golden: Bitmap, image: Bitmap, golden2: Bitmap, image2: Bitmap)
    requires Valid(golden) && Valid(image) && Valid(golden2) && Valid(image2)
  {
    && OverlapWidth(golden, image) == OverlapWidth(golden2, image2)
    && OverlapHeight(golden, image) == OverlapHeight(golden2, image2)
    && forall x: nat, y: nat | x < OverlapWidth(golden, image) && y < OverlapHeight(golden, image) ::
         PixelDelta(PixelAt(golden, x, y), PixelAt(image, x, y))
         <= PixelDelta(PixelAt(golden2, x, y), PixelAt(image2, x, y))
  }

  /** Pair 2 adds strictly more than pair 1 at overlap pixel (x, y). */
  ghost predicate AddsMoreAt(golden: Bitmap, image: Bitmap, golden2: Bitmap, image2: Bitmap, x: nat, y: nat)
    requires Valid(golden) && Valid(image) && Valid(golden2) && Valid(image2)
    requires DeltasDominate(golden, image, golden2, image2)
    requires x < OverlapWidth(golden, image) && y < OverlapHeight(golden, image)
  {
    PixelDelta(PixelAt(golden, x, y), PixelAt(image, x, y))
    < PixelDelta(PixelAt(golden2, x, y), PixelAt(image2, x, y))
  }

  lemma {:induction false} RowDeltaMonotone(golden: Bitmap, image: Bitmap, golden2: Bitmap, image2: Bitmap,
                                            y: nat, n: nat, x0: nat)
    requires Valid(golden) && Valid(image) && Valid(golden2) && Valid(image2)
    requires DeltasDominate(golden, image, golden2, image2)
    requires y < OverlapHeight(golden, image) && n <= OverlapWidth(golden, image)
    ensures RowDelta(golden, image, y, n) <= RowDelta(golden2, image2, y, n)
    ensures x0 < n && AddsMoreAt(golden, image, golden2, image2, x0, y)
      ==> RowDelta(golden, image, y, n) < RowDelta(golden2, image2, y, n)
  {
    if n > 0 {
      RowDeltaMonotone(golden, image, golden2, image2, y, n - 1, x0);
    }
  }

  lemma {:induction false} RegionDeltaMonotone(golden: Bitmap, image: Bitmap, golden2: Bitmap, image2: Bitmap,
                                               m: nat, x0: nat, y0: nat)
    requires Valid(golden) && Valid(image) && Valid(golden2) && Valid(image2)
    requires DeltasDominate(golden, image, golden2, image2)
    requires m <= OverlapHeight(golden, image) && x0 < OverlapWidth(golden, image)
    ensures RegionDelta(golden, image, m) <= RegionDelta(golden2, image2, m)
    ensures y0 < m && AddsMoreAt(golden, image, golden2, image2, x0, y0)
      ==> RegionDelta(golden, image, m) < RegionDelta(golden2, image2, m)
  {
    if m > 0 {
      RegionDeltaMonotone(golden, image, golden2, image2, m - 1, x0, y0);
      RowDeltaMonotone(golden, image, golden2, image2, m - 1, OverlapWidth(golden, image), x0);
    }
  }

  /**
   * A larger deviation gives a larger result: when pair 2 adds at least as
   * much as pair 1 at every overlap pixel and strictly more at one, its
   * `delta` is strictly larger, its `total` is the same, and so its
   * percentage is strictly larger.
   */
  lemma DeltaMonotone(golden: Bitmap, image: Bitmap, golden2: Bitmap, image2: Bitmap, x0: nat, y0: nat)
    requires Valid(golden) && Valid(image) && Valid(golden2) && Valid(image2)
    requires DeltasDominate(golden, image, golden2, image2)
    requires x0 < OverlapWidth(golden, image) && y0 < OverlapHeight(golden, image)
    requires AddsMoreAt(golden, image, golden2, image2, x0, y0)
    ensures Delta(golden, image) < Delta(golden2, image2)
    ensures Total(golden, image) == Total(golden2, image2)
    ensures PercentDifference(Delta(golden, image), Total(golden, image))
          < PercentDifference(Delta(golden2, image2), Total(golden2, image2))
  {
    RegionDeltaMonotone(golden, image, golden2, image2, OverlapHeight(golden, image), x0, y0);
    var d1, d2, t := Delta(golden, image), Delta(golden2, image2), Total(golden, image);
    assert (d1 * 100) as real < (d2 * 100) as real;
    QuotientIncreasing((d1 * 100) as real, (d2 * 100) as real, t as real);
  }

  /**
   * When every overlap pixel adds the same `k`, `delta` is `k` times the
   * overlap's area and the percentage is `k * 100 / 768`, whatever the size.
   */
  lemma UniformPercent(golden: Bitmap, image: Bitmap, k: nat)
    requires Valid(golden) && Valid(image)
    requires forall x: nat, y: nat | x < OverlapWidth(golden, image) && y < OverlapHeight(golden, image) ::
      PixelDelta(PixelAt(golden, x, y), PixelAt(image, x, y)) == k
    ensures Delta(golden, image) == k * (OverlapWidth(golden, image) * OverlapHeight(golden, image))
    ensures PercentDifference(Delta(golden, image), Total(golden, image)) == (k * 100) as real / 768.0
  {
    RegionDeltaUniform(golden, image, k, OverlapHeight(golden, image));
    TotalPerPixel(golden, image);
    PercentOfUniformDelta(k, OverlapWidth(golden, image) * OverlapHeight(golden, image));
  }

  /** Comparing an image with itself finds no difference, and passes any threshold from 0 up. */
  lemma IdenticalImagesPass(b: Bitmap, maxPercentDifferent: real)
    requires Valid(b) && b.config == ARGB_8888
    requires maxPercentDifferent >= 0.0
    ensures Delta(b, b) == 0
    ensures Compare(b, b, maxPercentDifferent) == Similar
  {
    UniformPercent(b, b, 0);
  }

  lemma {:induction false} RegionDeltaBound(golden: Bitmap, image: Bitmap, m: nat)
    requires Valid(golden) && Valid(image)
    requires m <= OverlapHeight(golden, image)
    ensures RegionDelta(golden, image, m) <= 765 * (OverlapWidth(golden, image) * m)
  {
    if m > 0 {
      var w := OverlapWidth(golden, image);
      RegionDeltaBound(golden, image, m - 1);
      MulSucc(w, m - 1);
    }
  }

  /**
   * Each pixel adds at most 765 while `total` allots 768 per pixel, so
   * `delta < total` and the percentage is below 100.
   */
  lemma PercentBelowHundred(golden: Bitmap, image: Bitmap)
    requires Valid(golden) && Valid(image)
    ensures Delta(golden, image) <= 765 * (OverlapWidth(golden, image) * OverlapHeight(golden, image))
    ensures Delta(golden, image) < Total(golden, image)
    ensures 0.0 <= PercentDifference(Delta(golden, image), Total(golden, image)) < 100.0
  {
    RegionDeltaBound(golden, image, OverlapHeight(golden, image));
    TotalPerPixel(golden, image);
    PercentOfBoundedDelta(Delta(golden, image), OverlapWidth(golden, image) * OverlapHeight(golden, image));
  }

  /** Opaque black against opaque white adds the largest amount, 3 * 255. */
  lemma BlackWhitePixel()
    ensures PixelDelta(0xFF00_0000, 0xFFFF_FFFF) == 765
  {
    assert Alpha(0xFF00_0000) == 255;
    assert Red(0xFF00_0000) == 0 && Green(0xFF00_0000) == 0 && Blue(0xFF00_0000) == 0;
    assert Red(0xFFFF_FFFF) == 255 && Green(0xFFFF_FFFF) == 255 && Blue(0xFFFF_FFFF) == 255;
  }

  /**
   * An opaque all-black golden image against an opaque all-white one: every
   * pixel adds 3 * 255, so the difference is 76500 / 768 = 99.609375 percent,
   * not 100, and the default threshold 0.7 fails.
   */
  lemma BlackAgainstWhite(golden: Bitmap, image: Bitmap)
    requires Valid(golden) && Valid(image) && golden.config == ARGB_8888
    requires forall x: nat, y: nat | x < golden.width && y < golden.height :: PixelAt(golden, x, y) == 0xFF00_0000
    requires forall x: nat, y: nat | x < image.width && y < image.height :: PixelAt(image, x, y) == 0xFFFF_FFFF
    ensures Compare(golden, image, 0.7) == Differ(99.609375)
  {
    BlackWhitePixel();
    UniformPercent(golden, image, 765);
  }
}
