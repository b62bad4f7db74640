/**
 * The bitmaps the comparison reads: a width, a height, a pixel format and
 * the pixels, row by row, as colour words.  The source reaches pixels only
 * through `getPixel(x, y)`, which here is `rows[y][x]`.
 */
module Bitmaps {
  import opened Pixels

  /** `Bitmap.Config`. */
  datatype Config = ALPHA_8 | RGB_565 | ARGB_4444 | ARGB_8888

  datatype Bitmap = Bitmap(width: nat, height: nat, config: Config, rows: seq<seq<Word>>)

  /** An Android bitmap is never empty, and has `height` rows of `width` pixels. */
  predicate Valid(b: Bitmap) {
    && b.width > 0 && b.height > 0
    && |b.rows| == b.height
    && forall y | 0 <= y < b.height :: |b.rows[y]| == b.width
  }

  /** `b.getPixel(x, y)`. */
  function PixelAt(b: Bitmap, x: nat, y: nat): Word
    requires Valid(b) && x < b.width && y < b.height
  {
    b.rows[y][x]
  }

  function Min(a: nat, b: nat): (m: nat)
    ensures m <= a && m <= b && (m == a || m == b)
  {
    if a <= b then a else b
  }
}
