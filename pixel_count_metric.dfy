/** PixelCountMetric.kt: the distance between two frames as the number of pixels whose blue, green
    or red byte differs, optionally divided by the number of pixels. A frame is the byte buffer of a
    3-byte BGR image: pixel k occupies bytes 3k (blue), 3k+1 (green) and 3k+2 (red). */
module PixelCountMetric {
  import opened Errors
  import opened Doubles

  /** `b and 0xFF.toByte()`: masking a byte with all ones gives the byte back, so the channel
      comparisons below are plain byte equality. */
  function Masked(b: bv8): (r: bv8)
    ensures r == b
  {
    b & 0xFF
  }

  /** Pixel `k` has a different blue, green or red byte in the two buffers. */
  predicate PixelDiffers(data1: seq<bv8>, data2: seq<bv8>, k: nat)
    requires 3 * k + 2 < |data1| && 3 * k + 2 < |data2|
  {
    Masked(data1[3 * k]) != Masked(data2[3 * k])
      || Masked(data1[3 * k + 1]) != Masked(data2[3 * k + 1])
      || Masked(data1[3 * k + 2]) != Masked(data2[3 * k + 2])
  }

  /** Both buffers hold the `n` pixels the loop reads. */
  predicate Holds(data1: seq<bv8>, data2: seq<bv8>, n: nat)
  {
    3 * n <= |data1| && 3 * n <= |data2|
  }

  /** How many of the first `n` pixels differ. */
  function DifferingPixels(data1: seq<bv8>, data2: seq<bv8>, n: nat): (c: nat)
    requires Holds(data1, data2, n)
    ensures c <= n
  {
    if n == 0 then 0
    else DifferingPixels(data1, data2, n - 1) + (if PixelDiffers(data1, data2, n - 1) then 1 else 0)
  }

  /** The pixels among the first `n` that differ. */
  ghost function DifferingSet(data1: seq<bv8>, data2: seq<bv8>, n: nat): set<nat>
    requires Holds(data1, data2, n)
  {
    set k: nat | k < n && PixelDiffers(data1, data2, k)
  }

  /** The count is the size of the set of differing pixels. */
  lemma {:induction false} DifferingPixelsCountsSet(data1: seq<bv8>, data2: seq<bv8>, n: nat)
    requires Holds(data1, data2, n)
    ensures DifferingPixels(data1, data2, n) == |DifferingSet(data1, data2, n)|
  {
    if n > 0 {
      DifferingPixelsCountsSet(data1, data2, n - 1);
      var before, now := DifferingSet(data1, data2, n - 1), DifferingSet(data1, data2, n);
      if PixelDiffers(data1, data2, n - 1) {
        assert now == before + {n - 1};
      } else {
        assert now == before;
      }
    }
  }

  /** No pixel differs exactly when the count is 0; in particular identical buffers give 0. */
  lemma {:induction false} NoDifferenceIffZero(data1: seq<bv8>, data2: seq<bv8>, n: nat)
    requires Holds(data1, data2, n)
    ensures DifferingPixels(data1, data2, n) == 0 <==> forall k :: 0 <= k < n ==> !PixelDiffers(data1, data2, k)
  {
    if n > 0 {
      NoDifferenceIffZero(data1, data2, n - 1);
    }
  }

  lemma IdenticalBuffersGiveZero(data: seq<bv8>, n: nat)
    requires 3 * n <= |data|
    ensures DifferingPixels(data, data, n) == 0
  {
    NoDifferenceIffZero(data, data, n);
  }

  /** Every pixel differs exactly when the count is `n`. */
  lemma {:induction false} AllDifferIffFull(data1: seq<bv8>, data2: seq<bv8>, n: nat)
    requires Holds(data1, data2, n)
    ensures DifferingPixels(data1, data2, n) == n <==> forall k :: 0 <= k < n ==> PixelDiffers(data1, data2, k)
  {
    if n > 0 {
      AllDifferIffFull(data1, data2, n - 1);
    }
  }

  /** normalizeDistance: `distance / maxDistance`. Only an image without pixels divides by zero, and
      then the count is 0 as well, so the quotient is NaN. */
  function NormalizeDistance(distance: nat, maxDistance: nat): (r: Double)
    requires distance <= maxDistance
    ensures maxDistance == 0 <==> r == NotANumber
    ensures r.Number? ==> 0.0 <= r.value <= 1.0 && r.value * maxDistance as real == distance as real
  {
    Divide(distance, maxDistance)
  }

  /** measureDistance on the byte buffers of `a` and `b`: the pixel count `width * height` is taken
      from `a` alone. The loop steps through the buffers three bytes at a time; a buffer too short
      for the pixels of `a` makes the first byte access past its end throw. */
  method MeasureDistance(normalize: bool, width: nat, height: nat, data1: array<bv8>, data2: array<bv8>)
    returns (r: Result<Double>)
    ensures r.Err? <==> !Holds(data1[..], data2[..], width * height)
    ensures r.Err? ==> r.error == IndexOutOfBounds
    ensures r.Ok? && !normalize ==> r.value == Number(DifferingPixels(data1[..], data2[..], width * height) as real)
    ensures r.Ok? && normalize ==>
      r.value == NormalizeDistance(DifferingPixels(data1[..], data2[..], width * height), width * height)
  {
    var count: nat := 0;
    var index: nat := 0;
    ghost var pixel: nat := 0;
    var n := width * height;
    while index < n * 3
      invariant index == 3 * pixel && pixel <= n
      invariant Holds(data1[..], data2[..], pixel)
      invariant count == DifferingPixels(data1[..], data2[..], pixel)
      decreases n * 3 - index
    {
      if index + 2 >= data1.Length || index + 2 >= data2.Length {
        return Err(IndexOutOfBounds);
      }
      var blue1, green1, red1 := Masked(data1[index]), Masked(data1[index + 1]), Masked(data1[index + 2]);
      var blue2, green2, red2 := Masked(data2[index]), Masked(data2[index + 1]), Masked(data2[index + 2]);
      assert (blue1 != blue2 || green1 != green2 || red1 != red2) == PixelDiffers(data1[..], data2[..], pixel);
      if blue1 != blue2 || green1 != green2 || red1 != red2 {
        count := count + 1;
      }
      index := index + 3;
      pixel := pixel + 1;
    }
    if !normalize {
      return Ok(Number(count as real));
    }
    return Ok(NormalizeDistance(count, n));
  }

  /** One changed pixel in a 10 x 10 image gives 1 without normalisation and 0.01 with it; four give
      4 and 0.04. */
  lemma NormalizedCounts()
    ensures NormalizeDistance(0, 100) == Number(0.0)
    ensures NormalizeDistance(1, 100) == Number(0.01)
    ensures NormalizeDistance(4, 100) == Number(0.04)
  {
  }
}
