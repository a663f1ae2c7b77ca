/** The downsampling factor picked before a cover image is decoded: the only pure part of
    thumbnail creation (decoding, JPEG compression and stream I/O are not modelled). */
module Thumbnail {
  import opened Books

  /** Kotlin's `/` on `Int`: truncation toward zero (Dafny's `/` floors for a positive divisor). */
  function Quot(a: int, b: int): int
    requires b > 0
  {
    if a >= 0 then a / b else -((-a) / b)
  }

  predicate IsPowerOfTwo(k: int)
    decreases k
  {
    k == 1 || (k > 1 && k % 2 == 0 && IsPowerOfTwo(k / 2))
  }

  /** The loop condition: both half dimensions, divided by `k`, still reach the request. */
  predicate HalvesFit(height: int, width: int, reqWidth: int, reqHeight: int, k: int)
    requires k > 0
  {
    Quot(Quot(height, 2), k) >= reqHeight && Quot(Quot(width, 2), k) >= reqWidth
  }

  /** `calculateInSampleSize` for an image of `height` x `width` pixels (as read by the
      bounds-only decode, which reports -1 for an unreadable image) and a requested
      size of `reqWidth` x `reqHeight`: 1 unless the image is larger than the request,
      otherwise the power of two reached by doubling while both halves still fit. */
  method InSampleSize(height: Int, width: Int, reqWidth: Int, reqHeight: Int) returns (k: Int)
    requires reqWidth > 0 && reqHeight > 0
    ensures IsPowerOfTwo(k)
    ensures height <= reqHeight && width <= reqWidth ==> k == 1
    ensures !HalvesFit(height, width, reqWidth, reqHeight, k)
    ensures k > 1 ==> HalvesFit(height, width, reqWidth, reqHeight, k / 2)
  {
    k := 1;
    if height > reqHeight || width > reqWidth {
      var halfHeight := Quot(height, 2);
      var halfWidth := Quot(width, 2);
      while Quot(halfHeight, k) >= reqHeight && Quot(halfWidth, k) >= reqWidth
        invariant IsPowerOfTwo(k)
        invariant k > 1 ==> HalvesFit(height, width, reqWidth, reqHeight, k / 2)
        decreases halfHeight - k
      {
        Doubling(height, reqHeight, k);
        k := k * 2;
      }
    } else {
      SmallImageStopsAtOnce(height, width, reqWidth, reqHeight);
    }
  }

  /** While the half height still reaches the request at `k`, doubling `k` gives the next
      power of two, stays within `Int`, and gets closer to the half height. */
  lemma Doubling(height: Int, reqHeight: int, k: int)
    requires reqHeight > 0 && IsPowerOfTwo(k)
    requires Quot(Quot(height, 2), k) >= reqHeight
    ensures IsPowerOfTwo(k * 2) && (k * 2) / 2 == k
    ensures 1 <= k <= Quot(height, 2) && k * 2 < 0x8000_0000
  {
    PowerOfTwoPositive(k);
    QuotAtLeastOne(Quot(height, 2), k);
  }

  /** A truncated quotient of at least 1 means the dividend reaches the divisor. */
  lemma QuotAtLeastOne(a: int, k: int)
    requires k > 0 && Quot(a, k) >= 1
    ensures a >= k
  {
  }

  /** An image no larger than the request fails the loop condition already at 1. */
  lemma SmallImageStopsAtOnce(height: int, width: int, reqWidth: int, reqHeight: int)
    requires reqWidth > 0 && reqHeight > 0
    requires height <= reqHeight && width <= reqWidth
    ensures !HalvesFit(height, width, reqWidth, reqHeight, 1)
  {
  }

  // ---------------------------------------------------------------------------
  // What the factor means for the decoded image

  /** The factor is the largest power of two at which the image, decoded with one pixel
      per `k` x `k` block, still covers the requested size: at `k` it does (when the
      loop ran), and at every larger power of two it does not. */
  lemma SampleSizeIsLargestFit(height: int, width: int, reqWidth: int, reqHeight: int, k: int)
    requires reqWidth > 0 && reqHeight > 0
    requires IsPowerOfTwo(k)
    requires !HalvesFit(height, width, reqWidth, reqHeight, k)
    requires k > 1 ==> HalvesFit(height, width, reqWidth, reqHeight, k / 2)
    ensures k > 1 ==> Quot(height, k) >= reqHeight && Quot(width, k) >= reqWidth
    ensures forall j :: IsPowerOfTwo(j) && j > k ==> Quot(height, j) < reqHeight || Quot(width, j) < reqWidth
  {
    PowerOfTwoPositive(k);
    if k > 1 {
      DimensionFits(height, reqHeight, k);
      DimensionFits(width, reqWidth, k);
    }
    forall j | IsPowerOfTwo(j) && j > k
      ensures Quot(height, j) < reqHeight || Quot(width, j) < reqWidth
    {
      LargerPowerIsMultiple(j, k);
      if Quot(Quot(height, 2), k) < reqHeight {
        DimensionFails(height, reqHeight, k, j);
      } else {
        DimensionFails(width, reqWidth, k, j);
      }
    }
  }

  lemma {:induction false} PowerOfTwoPositive(k: int)
    requires IsPowerOfTwo(k)
    ensures k >= 1 && (k > 1 ==> k % 2 == 0 && k / 2 >= 1)
  {
  }

  /** Of two powers of two, the larger is at least twice the smaller. */
  lemma {:induction false} LargerPowerIsMultiple(j: int, k: int)
    requires IsPowerOfTwo(j) && IsPowerOfTwo(k) && j > k
    ensures j >= 2 * k
    decreases j
  {
    if k > 1 {
      LargerPowerIsMultiple(j / 2, k / 2);
    }
  }

  /** Halving then dividing by `m` is dividing by `2 * m`. */
  lemma NestedDivision(a: int, m: int)
    requires a >= 0 && m >= 1
    ensures (a / 2) / m == a / (2 * m)
  {
    var q, r := a / 2, a % 2;
    var t, u := q / m, q % m;
    assert a == 2 * m * t + (2 * u + r);
    assert 0 <= 2 * u + r < 2 * m;
    DivisionUnique(a, 2 * m, t, 2 * u + r);
  }

  lemma DivisionUnique(a: int, d: int, t: int, u: int)
    requires d > 0 && a == d * t + u && 0 <= u < d
    ensures a / d == t
  {
    var q, r := a / d, a % d;
    assert d * q + r == d * t + u;
    assert d * (q - t) == u - r;
    if q - t >= 1 {
      MulMonotoneRight(d, 1, q - t);
    } else if q - t <= -1 {
      MulMonotoneRight(d, q - t, -1);
    }
  }

  /** Dividing by a larger divisor gives no more. */
  lemma DivisionAntitone(a: int, d: int, e: int)
    requires a >= 0 && 0 < d <= e
    ensures a / e <= a / d
  {
    var qd, qe := a / d, a / e;
    if qe > qd {
      assert a >= e * qe by { assert a == e * qe + a % e; }
      assert e * qe >= d * qe by { MulMonotoneLeft(d, e, qe); }
      assert d * qe >= d * (qd + 1) by { MulMonotoneRight(d, qd + 1, qe); }
      assert false;
    }
  }

  lemma MulMonotoneLeft(d: int, e: int, q: int)
    requires 0 < d <= e && q >= 0
    ensures d * q <= e * q
  {
  }

  lemma MulMonotoneRight(d: int, m: int, q: int)
    requires d > 0 && m <= q
    ensures d * m <= d * q
  {
  }

  /** One dimension whose half still fits at `k / 2` fits at `k`. */
  lemma DimensionFits(a: int, req: int, k: int)
    requires req > 0 && k > 1 && k % 2 == 0
    requires Quot(Quot(a, 2), k / 2) >= req
    ensures Quot(a, k) >= req
  {
    if a >= 0 {
      NestedDivision(a, k / 2);
      assert 2 * (k / 2) == k;
    }
  }

  /** One dimension whose half no longer fits at `k` does not fit at any `j >= 2k`. */
  lemma DimensionFails(a: int, req: int, k: int, j: int)
    requires req > 0 && k >= 1 && j >= 2 * k
    requires Quot(Quot(a, 2), k) < req
    ensures Quot(a, j) < req
  {
    if a >= 0 {
      NestedDivision(a, k);
      DivisionAntitone(a, 2 * k, j);
    }
  }
}
