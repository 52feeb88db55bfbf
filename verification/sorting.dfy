/** The two sorts the Python code leans on: `np.argsort` used to reorder
    paired arrays by a key, and `np.sort(np.unique(a))`. */
module Sorting {
  import opened Sequences

  ghost predicate SortedBy<T>(s: seq<T>, key: T -> real) {
    forall i, j :: 0 <= i < j < |s| ==> key(s[i]) <= key(s[j])
  }

  /** Inserts `x` in front of the first entry whose key is larger. */
  function InsertBy<T>(x: T, s: seq<T>, key: T -> real): (r: seq<T>)
    requires SortedBy(s, key)
    ensures SortedBy(r, key)
    ensures multiset(r) == multiset(s) + multiset{x}
    ensures |r| == |s| + 1
  {
    if |s| == 0 then [x]
    else if key(x) <= key(s[0]) then [x] + s
    else
      var h, t := s[0], s[1..];
      var tail := InsertBy(x, t, key);
      assert s == [h] + t;
      assert forall y :: y in t + [x] ==> key(h) <= key(y);
      assert multiset(t + [x]) == multiset(t) + multiset{x};
      BoundCarries(key(h), tail, t + [x], key);
      ConsSorted(h, tail, key);
      assert multiset([h] + tail) == multiset{h} + multiset(tail);
      [h] + tail
  }

  lemma ConsSorted<T>(h: T, t: seq<T>, key: T -> real)
    requires SortedBy(t, key)
    requires forall k :: 0 <= k < |t| ==> key(h) <= key(t[k])
    ensures SortedBy([h] + t, key)
  {
    var r := [h] + t;
    forall i, j | 0 <= i < j < |r| ensures key(r[i]) <= key(r[j]) {
      assert r[j] == t[j - 1];
      if i > 0 { assert r[i] == t[i - 1]; }
    }
  }

  /** A lower bound on the keys of `u` holds for any rearrangement `t` of it. */
  lemma BoundCarries<T>(lo: real, t: seq<T>, u: seq<T>, key: T -> real)
    requires forall y :: y in u ==> lo <= key(y)
    requires multiset(t) == multiset(u)
    ensures forall k :: 0 <= k < |t| ==> lo <= key(t[k])
  {
    forall k | 0 <= k < |t| ensures lo <= key(t[k]) {
      assert t[k] in multiset(u);
    }
  }

  /** Reorders `s` ascending by `key`. The order of entries with equal keys is
      whatever this insertion sort yields; the contract promises only what
      holds for every tie order, because `np.argsort` does not promise a
      stable one. */
  function SortBy<T>(s: seq<T>, key: T -> real): (r: seq<T>)
    ensures SortedBy(r, key)
    ensures multiset(r) == multiset(s)
    ensures |r| == |s|
  {
    if |s| == 0 then []
    else
      assert s == [s[0]] + s[1..];
      InsertBy(s[0], SortBy(s[1..], key), key)
  }

  /** Adds `x` to an ascending duplicate-free sequence, keeping it so. */
  function InsertUnique(x: int, s: seq<int>): (r: seq<int>)
    requires StrictlyIncreasing(s)
    ensures StrictlyIncreasing(r)
    ensures forall v :: v in r <==> v == x || v in s
    ensures |r| <= |s| + 1
  {
    if |s| == 0 then [x]
    else if x < s[0] then [x] + s
    else if x == s[0] then s
    else
      var tail := InsertUnique(x, s[1..]);
      assert forall v :: v in s <==> v == s[0] || v in s[1..] by {
        assert s == [s[0]] + s[1..];
      }
      assert forall k :: 0 <= k < |tail| ==> s[0] < tail[k] by {
        forall k | 0 <= k < |tail| ensures s[0] < tail[k] {
          assert tail[k] in tail;
          if tail[k] != x {
            var m :| 0 <= m < |s[1..]| && s[1..][m] == tail[k];
            assert s[1..][m] == s[m + 1];
          }
        }
      }
      [s[0]] + tail
  }

  /** `np.sort(np.unique(a))`: the distinct values of `a`, ascending. */
  function SortedUnique(s: seq<int>): (r: seq<int>)
    ensures StrictlyIncreasing(r)
    ensures forall v :: v in r <==> v in s
    ensures |r| <= |s|
  {
    if |s| == 0 then []
    else
      var rest := SortedUnique(s[1..]);
      assert forall v :: v in s <==> v == s[0] || v in s[1..] by {
        assert s == [s[0]] + s[1..];
      }
      InsertUnique(s[0], rest)
  }

  /** An ascending duplicate-free sequence is determined by its values. */
  lemma {:induction false} StrictlyIncreasingUnique(a: seq<int>, b: seq<int>)
    requires StrictlyIncreasing(a) && StrictlyIncreasing(b)
    requires forall v :: v in a <==> v in b
    ensures a == b
  {
    if |a| > 0 { assert a[0] in a; }
    if |b| > 0 { assert b[0] in b; }
    if |a| > 0 && |b| > 0 {
      assert a[0] == b[0] by {
        assert a[0] in a && b[0] in b;
        var m :| 0 <= m < |b| && b[m] == a[0];
        var k :| 0 <= k < |a| && a[k] == b[0];
        assert b[0] <= b[m] && a[0] <= a[k];
      }
      var a', b' := a[1..], b[1..];
      forall v ensures v in a' <==> v in b' {
        if v in a' {
          var k :| 0 <= k < |a'| && a'[k] == v;
          assert a[k + 1] == v && a[0] < v;
          assert v in b;
          var m :| 0 <= m < |b| && b[m] == v;
          assert m != 0;
          assert b'[m - 1] == v;
        }
        if v in b' {
          var k :| 0 <= k < |b'| && b'[k] == v;
          assert b[k + 1] == v && b[0] < v;
          assert v in a;
          var m :| 0 <= m < |a| && a[m] == v;
          assert m != 0;
          assert a'[m - 1] == v;
        }
      }
      StrictlyIncreasingUnique(a', b');
      assert a == [a[0]] + a' && b == [b[0]] + b';
    }
  }

  /** Sorting and deduplicating twice changes nothing. */
  lemma SortedUniqueIdempotent(s: seq<int>)
    ensures SortedUnique(SortedUnique(s)) == SortedUnique(s)
  {
    StrictlyIncreasingUnique(SortedUnique(SortedUnique(s)), SortedUnique(s));
  }
}
