/**
 * `calculateInSampleSize`: the power-of-two subsampling factor for decoding
 * a bitmap of `outWidth` x `outHeight` pixels at about `reqWidth` x
 * `reqHeight`.
 */
module SampleSize {

  /** Java's `/` on `int`, which truncates toward zero (Dafny's `/` floors). */
  function JavaDiv(a: int, b: int): int
    requires b > 0
  {
    if a >= 0 then a / b else -((-a) / b)
  }

  /** 1, 2, 4, 8, ... */
  predicate IsPowerOfTwo(n: int)
    decreases if n < 0 then 0 else n
  {
    n == 1 || (n >= 2 && n % 2 == 0 && IsPowerOfTwo(n / 2))
  }

  /**
   * The loop condition: the halved height and width, divided by `s`, are
   * both still larger than requested.
   */
  predicate StillLarger(outWidth: int, outHeight: int, reqWidth: int, reqHeight: int, s: int)
    requires s > 0
  {
    JavaDiv(JavaDiv(outHeight, 2), s) > reqHeight && JavaDiv(JavaDiv(outWidth, 2), s) > reqWidth
  }

  /** No power of two lies strictly between `s` and `2 * s`. */
  lemma {:induction false} PowerOfTwoGap(p: int, s: int)
    requires IsPowerOfTwo(p) && IsPowerOfTwo(s) && p < 2 * s
    ensures p <= s
    decreases p
  {
    if p != 1 && s != 1 {
      PowerOfTwoGap(p / 2, s / 2);
    }
  }

  /** Doubling a power of two gives a power of two, whose half is the original. */
  lemma Doubling(n: int)
    requires IsPowerOfTwo(n)
    ensures IsPowerOfTwo(2 * n) && (2 * n) / 2 == n && n >= 1
  {
  }

  /** A quotient of at least 1 needs a dividend at least as large as the divisor. */
  lemma QuotientAtLeastOne(a: int, s: int)
    requires s > 0 && JavaDiv(a, s) >= 1
    ensures a >= s
  {
    var q := a / s;
    assert a == s * q + a % s;
    assert s * q >= s * 1;
  }

  /** A dimension within the request is never still larger, whatever the factor. */
  lemma WithinRequest(outHeight: int, reqHeight: int, s: int)
    requires reqHeight >= 0 && outHeight <= reqHeight && s > 0
    ensures JavaDiv(JavaDiv(outHeight, 2), s) <= reqHeight
  {
  }

  /** Multiplying by a non-negative factor keeps the order. */
  lemma MulMonotone(k: int, x: int, y: int)
    requires k >= 0 && x <= y
    ensures k * x <= k * y
  {
    assert k * y - k * x == k * (y - x);
  }

  /** Floor division of a non-negative number by a smaller divisor gives at least as much. */
  lemma DivAntitone(a: int, s: int, t: int)
    requires a >= 0 && 0 < s <= t
    ensures a / s >= a / t
  {
    var q := a / t;
    var p := a / s;
    assert a == t * q + a % t;
    assert q >= 0;
    MulMonotone(q, s, t);
    assert s * q <= a;
    assert a == s * p + a % s;
    if p < q {
      MulMonotone(s, p + 1, q);
      assert false;
    }
  }

  /** A positive quotient by `t` stays above `r` when the divisor shrinks. */
  lemma QuotientAntitone(a: int, r: int, s: int, t: int)
    requires 0 < s <= t && r >= 0 && JavaDiv(a, t) > r
    ensures JavaDiv(a, s) > r
  {
    assert a >= 0;
    DivAntitone(a, s, t);
  }

  /** The loop condition, once true at `t`, is true at every smaller factor. */
  lemma StillLargerAntitone(outWidth: int, outHeight: int, reqWidth: int, reqHeight: int, s: int, t: int)
    requires reqWidth >= 0 && reqHeight >= 0 && 0 < s <= t
    requires StillLarger(outWidth, outHeight, reqWidth, reqHeight, t)
    ensures StillLarger(outWidth, outHeight, reqWidth, reqHeight, s)
  {
    QuotientAntitone(JavaDiv(outHeight, 2), reqHeight, s, t);
    QuotientAntitone(JavaDiv(outWidth, 2), reqWidth, s, t);
  }

  /**
   * When the condition held at half of the power of two `n`, it held at
   * every power of two below `n`.
   */
  lemma SmallerFactorsStillLarger(outWidth: int, outHeight: int, reqWidth: int, reqHeight: int, n: int)
    requires reqWidth >= 0 && reqHeight >= 0 && IsPowerOfTwo(n)
    requires n == 1 || StillLarger(outWidth, outHeight, reqWidth, reqHeight, n / 2)
    ensures forall s | IsPowerOfTwo(s) && s < n :: StillLarger(outWidth, outHeight, reqWidth, reqHeight, s)
  {
    forall s | IsPowerOfTwo(s) && s < n
      ensures StillLarger(outWidth, outHeight, reqWidth, reqHeight, s)
    {
      PowerOfTwoGap(s, n / 2);
      StillLargerAntitone(outWidth, outHeight, reqWidth, reqHeight, s, n / 2);
    }
  }

  /**
   * The result is a power of two; it is 1 when the image is no larger than
   * requested; at the result the loop condition is false; and every
   * smaller power of two satisfied it, so each doubling happened while both
   * halved dimensions were still larger than requested.
   */
  method CalculateInSampleSize(outWidth: int, outHeight: int, reqWidth: int, reqHeight: int)
    returns (inSampleSize: int)
    requires reqWidth >= 0 && reqHeight >= 0
    ensures IsPowerOfTwo(inSampleSize) && inSampleSize >= 1
    ensures outHeight <= reqHeight && outWidth <= reqWidth ==> inSampleSize == 1
    ensures !StillLarger(outWidth, outHeight, reqWidth, reqHeight, inSampleSize)
    ensures forall s | IsPowerOfTwo(s) && s < inSampleSize :: StillLarger(outWidth, outHeight, reqWidth, reqHeight, s)
  {
    var height := outHeight;
    var width := outWidth;
    inSampleSize := 1;

    if height > reqHeight || width > reqWidth {
      var halfHeight := JavaDiv(height, 2);
      var halfWidth := JavaDiv(width, 2);
      while JavaDiv(halfHeight, inSampleSize) > reqHeight && JavaDiv(halfWidth, inSampleSize) > reqWidth
        invariant IsPowerOfTwo(inSampleSize) && inSampleSize >= 1
        invariant inSampleSize == 1 || StillLarger(outWidth, outHeight, reqWidth, reqHeight, inSampleSize / 2)
        decreases halfHeight - inSampleSize
      {
        QuotientAtLeastOne(halfHeight, inSampleSize);
        Doubling(inSampleSize);
        inSampleSize := inSampleSize * 2;
      }
    } else {
      WithinRequest(height, reqHeight, 1);
    }
    SmallerFactorsStillLarger(outWidth, outHeight, reqWidth, reqHeight, inSampleSize);
  }
}
