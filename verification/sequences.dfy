/** Ordering predicates and extremes of integer and real sequences, standing
    in for numpy's `min()`, `max()` and the "sorted ascending" promises the
    viewer's callers make. */
module Sequences {

  ghost predicate NonDecreasing(s: seq<int>) {
    forall i, j :: 0 <= i < j < |s| ==> s[i] <= s[j]
  }

  ghost predicate StrictlyIncreasing(s: seq<int>) {
    forall i, j :: 0 <= i < j < |s| ==> s[i] < s[j]
  }

  lemma StrictlyIncreasingIsNonDecreasing(s: seq<int>)
    requires StrictlyIncreasing(s)
    ensures NonDecreasing(s)
  {
  }

  /** numpy's `a.min()` on a non-empty integer array. */
  function MinOf(s: seq<int>): (m: int)
    requires |s| > 0
    ensures m in s
    ensures forall k :: 0 <= k < |s| ==> m <= s[k]
  {
    if |s| == 1 then s[0]
    else
      var rest := MinOf(s[1..]);
      assert forall k :: 1 <= k < |s| ==> s[k] == s[1..][k - 1];
      if s[0] <= rest then s[0] else rest
  }

  /** numpy's `a.max()` on a non-empty integer array. */
  function MaxOf(s: seq<int>): (m: int)
    requires |s| > 0
    ensures m in s
    ensures forall k :: 0 <= k < |s| ==> s[k] <= m
  {
    if |s| == 1 then s[0]
    else
      var rest := MaxOf(s[1..]);
      assert forall k :: 1 <= k < |s| ==> s[k] == s[1..][k - 1];
      if s[0] >= rest then s[0] else rest
  }

  /** numpy's `a.max()` on a non-empty real array. The same definition as
      `MaxOf`: Dafny has no ordering shared by `int` and `real` to make one
      function generic over both. */
  function MaxReal(s: seq<real>): (m: real)
    requires |s| > 0
    ensures m in s
    ensures forall k :: 0 <= k < |s| ==> s[k] <= m
  {
    if |s| == 1 then s[0]
    else
      var rest := MaxReal(s[1..]);
      assert forall k :: 1 <= k < |s| ==> s[k] == s[1..][k - 1];
      if s[0] >= rest then s[0] else rest
  }

  /** On an ascending sequence `min()` is the first entry and `max()` the last. */
  lemma {:induction false} SortedExtremes(s: seq<int>)
    requires |s| > 0 && NonDecreasing(s)
    ensures MinOf(s) == s[0]
    ensures MaxOf(s) == s[|s| - 1]
  {
    assert s[0] in s && s[|s| - 1] in s;
  }
}
