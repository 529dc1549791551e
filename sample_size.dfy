/** calculateInSampleSize: the downsampling factor requested from the decoder,
    chosen from a bitmap's bounds and the box it should be shown in. */
module SampleSize {
  import opened Footprint

  /** Math.round((float) a / (float) b) for b > 0, computed exactly: the integer
      nearest to a/b, a half rounded up (Java rounds to floor(a/b + 1/2)). */
  function RoundHalfUp(a: int, b: int): (r: int)
    requires b > 0
    ensures b * (2 * r - 1) <= 2 * a < b * (2 * r + 1)
  {
    var n, d := 2 * a + b, 2 * b;
    var q := n / d;
    assert d * q <= n < d * q + d by {
      assert n == d * q + n % d;
    }
    assert b * (2 * q - 1) == d * q - b;
    assert b * (2 * q + 1) == d * q + b;
    q
  }

  /** The bracket above determines the rounded value: no other integer lies
      within a half of a/b on the same side. */
  lemma RoundHalfUpUnique(a: int, b: int, r: int)
    requires b > 0
    requires b * (2 * r - 1) <= 2 * a < b * (2 * r + 1)
    ensures r == RoundHalfUp(a, b)
  {
    var q := RoundHalfUp(a, b);
    if r < q {
      MulMonotone(2 * r + 1, 2 * q - 1, b);
    } else if q < r {
      MulMonotone(2 * q + 1, 2 * r - 1, b);
    }
  }

  /** calculateInSampleSize(options, reqWidth, reqHeight) with the bounds
      options.outWidth, options.outHeight passed as width, height. Without
      downsampling the factor is 1. Otherwise the axis is picked by comparing
      the source dimensions themselves: a wider-than-tall source is rounded on
      its height, any other on its width. Nothing clamps the result below. */
  function CalculateInSampleSize(width: int, height: int, reqWidth: int, reqHeight: int): (inSampleSize: int)
    requires reqWidth > 0 && reqHeight > 0
    ensures width <= reqWidth && height <= reqHeight ==> inSampleSize == 1
    ensures 0 <= width && 0 <= height ==> 0 <= inSampleSize
  {
    if width > reqWidth || height > reqHeight then
      if width > height then RoundHalfUp(height, reqHeight)
      else RoundHalfUp(width, reqWidth)
    else
      1
  }

  /** A wider-than-tall source that does not fit is sampled by its height
      ratio, rounded half up, even when only its width overflows. */
  lemma WideSourceUsesHeightRatio(width: int, height: int, reqWidth: int, reqHeight: int)
    requires reqWidth > 0 && reqHeight > 0
    requires width > reqWidth || height > reqHeight
    requires width > height
    ensures var r := CalculateInSampleSize(width, height, reqWidth, reqHeight);
            reqHeight * (2 * r - 1) <= 2 * height < reqHeight * (2 * r + 1)
  {
  }

  /** A source that does not fit and is not wider than tall (squares included)
      is sampled by its width ratio, rounded half up. */
  lemma TallSourceUsesWidthRatio(width: int, height: int, reqWidth: int, reqHeight: int)
    requires reqWidth > 0 && reqHeight > 0
    requires width > reqWidth || height > reqHeight
    requires width <= height
    ensures var r := CalculateInSampleSize(width, height, reqWidth, reqHeight);
            reqWidth * (2 * r - 1) <= 2 * width < reqWidth * (2 * r + 1)
  {
  }

  /** For real bounds the factor is 0 exactly when downsampling is triggered and
      the chosen source dimension is less than half of the requested one. */
  lemma {:induction false} SampleSizeZeroIff(width: nat, height: nat, reqWidth: int, reqHeight: int)
    requires reqWidth > 0 && reqHeight > 0
    ensures CalculateInSampleSize(width, height, reqWidth, reqHeight) == 0
        <==> (width > reqWidth || height > reqHeight)
             && (if width > height then 2 * height < reqHeight else 2 * width < reqWidth)
  {
    if width > reqWidth || height > reqHeight {
      var s, req := if width > height then height else width, if width > height then reqHeight else reqWidth;
      assert CalculateInSampleSize(width, height, reqWidth, reqHeight) == RoundHalfUp(s, req);
      if 2 * s < req {
        RoundHalfUpUnique(s, req, 0);
      } else {
        var r := RoundHalfUp(s, req);
        if r <= 0 {
          MulMonotone(2 * r + 1, 1, req);
        }
      }
    }
  }

  /** The missing lower clamp: a 200x5 source requested at 10x100 takes the
      height branch and asks the decoder for a sample size of 0. */
  lemma SampleSizeCanBeZero()
    ensures CalculateInSampleSize(200, 5, 10, 100) == 0
  {
  }

  /** The axis follows the larger dimension, not the larger ratio: a 1000x900
      source requested at 100x900 is ten times too wide, yet the factor is 1. */
  lemma WidthOverflowIgnoredForWideSource()
    ensures CalculateInSampleSize(1000, 900, 100, 900) == 1
  {
  }

  /** The planner with the lower clamp the factor needs: never below 1, and
      equal to calculateInSampleSize wherever that is already at least 1. */
  function PlannedSampleSize(width: int, height: int, reqWidth: int, reqHeight: int): (factor: int)
    requires reqWidth > 0 && reqHeight > 0
    ensures factor >= 1
    ensures width <= reqWidth && height <= reqHeight ==> factor == 1
    ensures CalculateInSampleSize(width, height, reqWidth, reqHeight) >= 1
            ==> factor == CalculateInSampleSize(width, height, reqWidth, reqHeight)
  {
    var s := CalculateInSampleSize(width, height, reqWidth, reqHeight);
    if s < 1 then 1 else s
  }

  /** Dimensions of a bitmap decoded with sample size `factor`: each axis
      divided by the factor, rounded down. */
  function Sampled(b: Bitmap, factor: int): (r: Bitmap)
    requires factor >= 1
    ensures r.config == b.config
    ensures r.width <= b.width && r.height <= b.height
  {
    DivAtMost(b.width, factor);
    DivAtMost(b.height, factor);
    Bitmap(b.width / factor, b.height / factor, b.config)
  }

  lemma DivAtMost(n: nat, f: int)
    requires f >= 1
    ensures n / f <= n
  {
    assert n == f * (n / f) + n % f;
    if n / f > 0 {
      MulMonotone(1, f, n / f);
    }
  }

  /** Decoding at the planned factor never enlarges a bitmap nor its footprint,
      and an image that already fits is decoded at full size. */
  lemma PlannedDecodeNeverUpsamples(b: Bitmap, reqWidth: int, reqHeight: int)
    requires reqWidth > 0 && reqHeight > 0
    ensures var d := Sampled(b, PlannedSampleSize(b.width, b.height, reqWidth, reqHeight));
            ByteCount(d) <= ByteCount(b)
            && (b.width <= reqWidth && b.height <= reqHeight ==> d == b)
  {
    var d := Sampled(b, PlannedSampleSize(b.width, b.height, reqWidth, reqHeight));
    ByteCountMonotone(d, b);
  }
}
