/** The sampling rule of the screenshot capture: the frame interval derived
    from the frame rate and the requested interval in seconds, the frame
    indices that are sample points, and how many there are.
 */
module Sampling {

  /** Frames between two screenshots: the requested interval in seconds times
      the frame rate already truncated to an integer (not the rounded product
      of the two). */
  function FrameInterval(interval: nat, fps: nat): (k: nat)
    ensures k == 0 <==> interval == 0 || fps == 0
    ensures interval > 0 ==> k >= fps
    ensures fps > 0 ==> k >= interval
  {
    interval * fps
  }

  /** Frame `i` is a sample point when it is a multiple of the interval `k`. */
  predicate IsSamplePoint(i: nat, k: nat)
    requires k > 0
  {
    i % k == 0
  }

  /** Number of multiples of `k` below `n`, that is the ceiling of n / k. */
  function CeilDiv(n: nat, k: nat): nat
    requires k > 0
  {
    (n + k - 1) / k
  }

  /** The frame indices sampled from a video of `n` frames, in read order. */
  function SampleIndices(n: nat, k: nat): seq<nat>
    requires k > 0
  {
    seq(CeilDiv(n, k), j requires j >= 0 => j * k)
  }

  lemma MulMonotone(a: nat, b: nat, k: nat)
    requires a <= b
    ensures a * k <= b * k
  {
    assert b * k == a * k + (b - a) * k;
  }

  /** `CeilDiv(n, k)` is the least `c` with `n <= c * k`. */
  lemma CeilDivBounds(n: nat, k: nat)
    requires k > 0
    ensures n <= CeilDiv(n, k) * k
    ensures CeilDiv(n, k) > 0 ==> (CeilDiv(n, k) - 1) * k < n
    ensures CeilDiv(n, k) <= n
    ensures CeilDiv(n, k) == 0 <==> n == 0
  {
    var c, r := (n + k - 1) / k, (n + k - 1) % k;
    assert n + k - 1 == c * k + r && 0 <= r < k;
    if c > 0 {
      assert (c - 1) * k == c * k - k;
      MulMonotone(1, k, c - 1);
    }
  }

  /** Any `c` with `(c - 1) * k < n <= c * k` is `CeilDiv(n, k)`. */
  lemma CeilDivUnique(n: nat, k: nat, c: nat)
    requires k > 0
    requires n <= c * k
    requires c > 0 ==> (c - 1) * k < n
    ensures CeilDiv(n, k) == c
  {
    CeilDivBounds(n, k);
    var d := CeilDiv(n, k);
    if d < c {
      MulMonotone(d, c - 1, k);
    } else if c < d {
      MulMonotone(c, d - 1, k);
    }
  }

  /** Reading one more frame adds a screenshot exactly when that frame's
      index is a sample point. */
  lemma CeilDivStep(n: nat, k: nat)
    requires k > 0
    ensures CeilDiv(n + 1, k) == if n % k == 0 then CeilDiv(n, k) + 1 else CeilDiv(n, k)
    ensures n % k == 0 ==> n == CeilDiv(n, k) * k
  {
    var q, r := n / k, n % k;
    assert n == q * k + r && 0 <= r < k;
    assert (q + 1) * k == q * k + k;
    if r == 0 {
      if q > 0 {
        assert (q - 1) * k == q * k - k;
      }
      CeilDivUnique(n, k, q);
      CeilDivUnique(n + 1, k, q + 1);
    } else {
      CeilDivUnique(n, k, q + 1);
      CeilDivUnique(n + 1, k, q + 1);
    }
  }

  /** A video shorter than the frame interval (but not empty) yields exactly
      one screenshot, of frame 0. */
  lemma ShortVideoOneScreenshot(n: nat, k: nat)
    requires k > 0 && 0 < n <= k
    ensures CeilDiv(n, k) == 1
    ensures SampleIndices(n, k) == [0]
  {
    CeilDivUnique(n, k, 1);
  }

  /** Every sampled index is below `n`, and screenshot `j` is frame `j * k`. */
  lemma SampleIndicesInRange(n: nat, k: nat, j: nat)
    requires k > 0 && j < CeilDiv(n, k)
    ensures j * k < n
  {
    CeilDivBounds(n, k);
    MulMonotone(j, CeilDiv(n, k) - 1, k);
  }

  /** Frame `i` is sampled if and only if it is read (`i < n`) and is a
      multiple of the frame interval. */
  lemma SampleIndicesExactly(n: nat, k: nat, i: nat)
    requires k > 0
    ensures i in SampleIndices(n, k) <==> i < n && IsSamplePoint(i, k)
  {
    var s := SampleIndices(n, k);
    if i in s {
      var j :| 0 <= j < |s| && s[j] == i;
      SampleIndicesInRange(n, k, j);
      MultipleIsSamplePoint(j, k);
    }
    if i < n && i % k == 0 {
      SampleIndexOfMultiple(n, k, i);
    }
  }

  lemma MultipleIsSamplePoint(j: nat, k: nat)
    requires k > 0
    ensures (j * k) % k == 0
  {
    var q, r := (j * k) / k, (j * k) % k;
    assert (j - q) * k == r;
    if j > q {
      MulMonotone(1, j - q, k);
    }
  }

  lemma SampleIndexOfMultiple(n: nat, k: nat, i: nat)
    requires k > 0 && i < n && i % k == 0
    ensures i / k < |SampleIndices(n, k)| && SampleIndices(n, k)[i / k] == i
  {
    var j := i / k;
    assert i == j * k;
    CeilDivBounds(n, k);
    if j >= CeilDiv(n, k) {
      MulMonotone(CeilDiv(n, k), j, k);
    }
  }

  /** Sample points are read in strictly increasing order. */
  lemma SampleIndicesIncreasing(n: nat, k: nat, a: nat, b: nat)
    requires k > 0 && a < b < |SampleIndices(n, k)|
    ensures SampleIndices(n, k)[a] < SampleIndices(n, k)[b]
  {
    MulMonotone(a + 1, b, k);
    assert (a + 1) * k == a * k + k;
  }
}
