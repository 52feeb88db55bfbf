/** `np.digitize(x, bins)` with ascending bins and the default `right=False`:
    numpy answers it with a right-sided binary search (`searchsorted(...,
    side='right')`), which lands on the number of bins not above `x`. */
module Binning {
  import opened Sequences

  /** Reference meaning of the bin number: how many bins lie at or below `x`. */
  function CountAtMost(bins: seq<int>, x: int): (n: nat)
    ensures n <= |bins|
  {
    if |bins| == 0 then 0
    else (if bins[0] <= x then 1 else 0) + CountAtMost(bins[1..], x)
  }

  /** Right-sided binary search on `bins[lo..hi]`, knowing every bin before
      `lo` is at most `x` and every bin from `hi` on is above it. */
  function SearchRight(bins: seq<int>, x: int, lo: nat, hi: nat): (k: nat)
    requires NonDecreasing(bins)
    requires lo <= hi <= |bins|
    requires forall i :: 0 <= i < lo ==> bins[i] <= x
    requires forall i :: hi <= i < |bins| ==> x < bins[i]
    ensures lo <= k <= hi
    ensures forall i :: 0 <= i < k ==> bins[i] <= x
    ensures forall i :: k <= i < |bins| ==> x < bins[i]
    decreases hi - lo
  {
    if lo == hi then lo
    else
      var mid := (lo + hi) / 2;
      if bins[mid] <= x then SearchRight(bins, x, mid + 1, hi)
      else SearchRight(bins, x, lo, mid)
  }

  /** A split point of an ascending sequence is its count of entries at most `x`. */
  lemma {:induction false} SplitPointCounts(bins: seq<int>, x: int, k: nat)
    requires k <= |bins|
    requires forall i :: 0 <= i < k ==> bins[i] <= x
    requires forall i :: k <= i < |bins| ==> x < bins[i]
    ensures CountAtMost(bins, x) == k
  {
    if |bins| > 0 {
      var t := bins[1..];
      if k == 0 {
        assert x < bins[0];
        SplitPointCounts(t, x, 0);
      } else {
        assert bins[0] <= x;
        SplitPointCounts(t, x, k - 1);
      }
    }
  }

  /** `np.digitize(x, bins)` for ascending `bins`. */
  function Digitize(x: int, bins: seq<int>): (k: nat)
    requires NonDecreasing(bins)
    ensures k <= |bins|
    ensures k == CountAtMost(bins, x)
    ensures forall i :: 0 <= i < k ==> bins[i] <= x
    ensures forall i :: k <= i < |bins| ==> x < bins[i]
  {
    var k := SearchRight(bins, x, 0, |bins|);
    SplitPointCounts(bins, x, k);
    k
  }

  /** A value inside `[min, max]` of the bins lands in bin `1..|bins|`; an
      exact hit on `bins[k]` of duplicate-free bins lands in bin `k+1`. */
  lemma DigitizeInRange(x: int, bins: seq<int>)
    requires NonDecreasing(bins) && |bins| > 0
    requires bins[0] <= x <= bins[|bins| - 1]
    ensures 1 <= Digitize(x, bins) <= |bins|
    ensures bins[Digitize(x, bins) - 1] <= x
  {
  }

  lemma DigitizeExactHit(bins: seq<int>, k: nat)
    requires StrictlyIncreasing(bins) && k < |bins|
    ensures NonDecreasing(bins)
    ensures Digitize(bins[k], bins) == k + 1
  {
    var d := Digitize(bins[k], bins);
    assert k < d;
    assert k + 1 < |bins| ==> bins[k] < bins[k + 1];
  }
}
