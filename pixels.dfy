/**
 * Packed ARGB_8888 colour words and the per-pixel arithmetic of the
 * golden-image comparison.
 *
 * A colour word is the 32-bit value `Bitmap.getPixel` returns, read as an
 * unsigned number: alpha in bits 24..31, red in 16..23, green in 8..15 and
 * blue in 0..7.  Extracting a channel with `(p & mask) >>> shift` is the same
 * as dividing by 2^shift and keeping the low byte, which is how the channels
 * are written here.
 */
module Pixels {

  /** A 32-bit colour word, unsigned. */
  type Word = x: int | 0 <= x < 0x1_0000_0000

  /** One 8-bit channel. */
  type Byte = x: int | 0 <= x < 0x100

  /** The diff pixel written for an unchanged pixel: alpha 0, grey 128. */
  const UnchangedMarker: Word := 0x00808080

  /** `(p & 0xFF000000) >>> 24` */
  function Alpha(p: Word): Byte { p / 0x100_0000 }

  /** `(p & 0xFF0000) >>> 16` */
  function Red(p: Word): Byte { p / 0x1_0000 % 0x100 }

  /** `(p & 0x00FF00) >>> 8` */
  function Green(p: Word): Byte { p / 0x100 % 0x100 }

  /** `p & 0x0000FF` */
  function Blue(p: Word): Byte { p % 0x100 }

  /**
   * `a << 24 | r << 16 | g << 8 | b`: the four bytes occupy disjoint bits,
   * so the OR is their weighted sum.
   */
  function Pack(a: Byte, r: Byte, g: Byte, b: Byte): Word {
    a * 0x100_0000 + r * 0x1_0000 + g * 0x100 + b
  }

  /** Unpacking a packed word gives back the four bytes. */
  lemma UnpackPack(a: Byte, r: Byte, g: Byte, b: Byte)
    ensures var p := Pack(a, r, g, b);
      Alpha(p) == a && Red(p) == r && Green(p) == g && Blue(p) == b
  {
    var p := Pack(a, r, g, b);
    assert p / 0x100_0000 == a;
    assert p / 0x1_0000 == a * 0x100 + r;
    assert p / 0x100 == a * 0x1_0000 + r * 0x100 + g;
  }

  /** Every word is the packing of its own four channels. */
  lemma PackOfChannels(p: Word)
    ensures Pack(Alpha(p), Red(p), Green(p), Blue(p)) == p
  {
    var q1 := p / 0x100;
    var q2 := q1 / 0x100;
    var q3 := q2 / 0x100;
    assert p == q1 * 0x100 + Blue(p);
    assert q1 == q2 * 0x100 + Green(p);
    assert q2 == q3 * 0x100 + Red(p);
    assert q2 == p / 0x1_0000;
    assert q3 == Alpha(p);
  }

  function Abs(x: int): nat { if x < 0 then -x else x }

  /**
   * The display value of a signed channel difference: `128 + d & 0xFF`,
   * which Java parses as `(128 + d) & 0xFF`.  On a two's-complement int
   * masking the low byte is the non-negative remainder modulo 256.  A
   * difference in [-128, 127] is shown exactly, offset by 128.
   */
  function Bias(d: int): (r: Byte)
    ensures -128 <= d < 128 ==> r == 128 + d
    ensures -384 <= d < -128 ==> r == 128 + d + 256
    ensures 128 <= d < 384 ==> r == 128 + d - 256
  {
    (128 + d) % 256
  }

  /**
   * The pixel is skipped: the two words are bit-identical, or both are
   * fully transparent.
   */
  predicate Unchanged(golden: Word, image: Word) {
    golden == image || (Alpha(golden) == 0 && Alpha(image) == 0)
  }

  /**
   * What one pixel adds to the running `delta`: nothing when unchanged,
   * otherwise the sum of the absolute red, green and blue differences.
   * Alpha never contributes.
   */
  function PixelDelta(golden: Word, image: Word): (d: nat)
    ensures d <= 3 * 255
  {
    if Unchanged(golden, image) then 0
    else Abs(Red(image) - Red(golden)) + Abs(Green(image) - Green(golden)) + Abs(Blue(image) - Blue(golden))
  }

  /**
   * A pixel adds nothing exactly when it is skipped or its red, green and
   * blue bytes agree; a change in alpha alone is not counted.
   */
  lemma PixelDeltaZero(golden: Word, image: Word)
    ensures PixelDelta(golden, image) == 0 <==>
      Unchanged(golden, image) ||
      (Red(golden) == Red(image) && Green(golden) == Green(image) && Blue(golden) == Blue(image))
  {
  }

  /**
   * The pixel written into the middle third of the delta image: the marker
   * for an unchanged pixel; otherwise the averaged alpha (rounded down) and,
   * per channel, the biased difference `image - golden`.
   */
  function DiffPixel(golden: Word, image: Word): Word {
    if Unchanged(golden, image) then
      UnchangedMarker
    else
      Pack((Alpha(golden) + Alpha(image)) / 2,
           Bias(Red(image) - Red(golden)),
           Bias(Green(image) - Green(golden)),
           Bias(Blue(image) - Blue(golden)))
  }

  /**
   * The bytes of a diff pixel: alpha 0 and grey 128 for a skipped pixel;
   * otherwise the rounded-down mean alpha and the biased `image - golden`
   * difference of each colour channel.
   */
  lemma DiffPixelChannels(golden: Word, image: Word)
    ensures var p := DiffPixel(golden, image);
      Unchanged(golden, image) ==>
        Alpha(p) == 0 && Red(p) == 128 && Green(p) == 128 && Blue(p) == 128
    ensures var p := DiffPixel(golden, image);
      !Unchanged(golden, image) ==>
        && Alpha(p) == (Alpha(golden) + Alpha(image)) / 2
        && Red(p) == Bias(Red(image) - Red(golden))
        && Green(p) == Bias(Green(image) - Green(golden))
        && Blue(p) == Bias(Blue(image) - Blue(golden))
  {
    if Unchanged(golden, image) {
      assert UnchangedMarker == Pack(0, 128, 128, 128);
      UnpackPack(0, 128, 128, 128);
    } else {
      UnpackPack((Alpha(golden) + Alpha(image)) / 2,
                 Bias(Red(image) - Red(golden)),
                 Bias(Green(image) - Green(golden)),
                 Bias(Blue(image) - Blue(golden)));
    }
  }

  /** Swapping the two pixels does not change what they add to `delta`. */
  lemma PixelDeltaSymmetric(golden: Word, image: Word)
    ensures PixelDelta(golden, image) == PixelDelta(image, golden)
  {
  }

  /**
   * Two fully transparent pixels are skipped whatever their colours: they
   * add nothing and get the unchanged marker.
   */
  lemma TransparentPixelsIgnored(golden: Word, image: Word)
    requires Alpha(golden) == 0 && Alpha(image) == 0
    ensures PixelDelta(golden, image) == 0
    ensures DiffPixel(golden, image) == UnchangedMarker
  {
  }

  /** Transparent black against transparent red: the red byte differs by 255 and counts for nothing. */
  lemma TransparentRedIgnored()
    ensures Red(0x0000_0000) == 0 && Red(0x00FF_0000) == 255
    ensures PixelDelta(0x0000_0000, 0x00FF_0000) == 0
  {
    assert Alpha(0x00FF_0000) == 0;
    TransparentPixelsIgnored(0x0000_0000, 0x00FF_0000);
  }

  /**
   * Moving a pixel further from the golden one counts for more: with the
   * same alpha, not both transparent, no colour channel closer to the
   * golden pixel and at least one strictly further away, the pixel adds
   * strictly more.
   */
  lemma PixelDeltaMonotone(golden: Word, image: Word, image2: Word)
    requires !(Alpha(golden) == 0 && Alpha(image) == 0)
    requires Alpha(image2) == Alpha(image)
    requires Abs(Red(image2) - Red(golden)) >= Abs(Red(image) - Red(golden))
    requires Abs(Green(image2) - Green(golden)) >= Abs(Green(image) - Green(golden))
    requires Abs(Blue(image2) - Blue(golden)) >= Abs(Blue(image) - Blue(golden))
    requires || Abs(Red(image2) - Red(golden)) > Abs(Red(image) - Red(golden))
             || Abs(Green(image2) - Green(golden)) > Abs(Green(image) - Green(golden))
             || Abs(Blue(image2) - Blue(golden)) > Abs(Blue(image) - Blue(golden))
    ensures PixelDelta(golden, image2) > PixelDelta(golden, image)
  {
    assert image2 != golden;
  }

  /**
   * A diff pixel of a changed pixel can be read back: when every channel
   * moved by less than 128 in either direction, its red, green and blue
   * bytes minus 128 are exactly the signed differences, and the averaged
   * alpha does not depend on which image is the golden one.
   */
  lemma DiffPixelReadable(golden: Word, image: Word)
    requires !Unchanged(golden, image)
    requires -128 <= Red(image) - Red(golden) < 128
    requires -128 <= Green(image) - Green(golden) < 128
    requires -128 <= Blue(image) - Blue(golden) < 128
    ensures Red(DiffPixel(golden, image)) - 128 == Red(image) - Red(golden)
    ensures Green(DiffPixel(golden, image)) - 128 == Green(image) - Green(golden)
    ensures Blue(DiffPixel(golden, image)) - 128 == Blue(image) - Blue(golden)
    ensures Alpha(DiffPixel(golden, image)) == Alpha(DiffPixel(image, golden))
  {
    DiffPixelChannels(golden, image);
    DiffPixelChannels(image, golden);
  }
}
