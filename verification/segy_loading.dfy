/** Assembling a dense (inline, crossline, sample) cube from the traces of a
    SEG-Y file (scripts/loading/load_segy.py). The file is abstracted as the
    sequence of its traces, each with the inline and crossline numbers of its
    header and its samples. */
module SegyLoading {
  import opened Results
  import opened Sequences
  import opened Sorting
  import opened Volumes

  datatype Trace = Trace(iline: int, xline: int, data: seq<real>)

  /** Both lookups raise `ValueError` in the source: `.item()` on an empty
      (or longer than one) match. The index is the trace being placed. */
  datatype LoadError = MissingXline(trace: nat, xline: int) | MissingIline(trace: nat, iline: int)

  // ---------------------------------------------------------------------
  // Header sampling

  /** `range(start, n, skip)` for a positive step. */
  function RangeFrom(start: nat, n: nat, skip: nat): (r: seq<nat>)
    requires skip > 0
    ensures forall k :: 0 <= k < |r| ==> r[k] == start + k * skip && r[k] < n
    ensures start + |r| * skip >= n
    decreases n - start
  {
    if start >= n then []
    else
      var rest := RangeFrom(start + skip, n, skip);
      var r := [start] + rest;
      forall k | 1 <= k < |r| ensures r[k] == start + k * skip {
        StepShift(start, skip, k);
      }
      assert start + |r| * skip == start + skip + |rest| * skip by {
        StepShift(start, skip, |r|);
      }
      r
  }

  lemma StepShift(start: nat, skip: nat, k: nat)
    requires k >= 1
    ensures start + skip + (k - 1) * skip == start + k * skip
  {
    assert k * skip == (k - 1) * skip + skip;
  }

  /** `range(0, tracecount, skip)`: a negative step gives no indices, a zero
      step is a `ValueError` the callers never trigger (they pass 20 and 1). */
  function SampledIndices(n: nat, skip: int): (r: seq<nat>)
    requires skip != 0
    ensures skip < 0 ==> r == []
    ensures skip > 0 ==> forall k :: 0 <= k < |r| ==> r[k] == k * skip < n
    ensures skip > 0 ==> |r| * skip >= n
  {
    if skip < 0 then [] else RangeFrom(0, n, skip)
  }

  /** The sampled indices are exactly the multiples of `skip` below `n`,
      visited in increasing order. */
  lemma SampledIndicesAreMultiples(n: nat, skip: nat, i: int)
    requires skip > 0
    ensures forall k :: 0 <= k < |SampledIndices(n, skip)| ==> SampledIndices(n, skip)[k] == k * skip < n
    ensures i in SampledIndices(n, skip) <==> (0 <= i < n && i % skip == 0)
  {
    var r := SampledIndices(n, skip);
    if 0 <= i < n && i % skip == 0 {
      var q := i / skip;
      DivModSplit(i, skip);
      assert i == skip * q;
      assert skip * |r| >= n by {
        assert |r| * skip == skip * |r|;
      }
      if q >= |r| {
        MulLe(skip, |r|, q);
        assert false;
      }
      assert r[q] == q * skip;
    }
    if i in r {
      var k :| 0 <= k < |r| && r[k] == i;
      assert i == skip * k;
      DivModOf(i, skip, k, 0);
    }
  }

  /** With step 1 every trace index is sampled, in order. */
  lemma EveryIndexAtStepOne(n: nat)
    ensures SampledIndices(n, 1) == seq(n, k => k)
  {
    var r := SampledIndices(n, 1);
    assert 0 + |r| * 1 >= n;
    assert |r| > 0 ==> r[|r| - 1] == |r| - 1 < n;
  }

  /** `get_segy_inlines(segy_file, skip)`. */
  function HeaderInlines(traces: seq<Trace>, skip: int): (r: seq<int>)
    requires skip != 0
    ensures |r| == |SampledIndices(|traces|, skip)|
    ensures forall k :: 0 <= k < |r| ==> r[k] == traces[SampledIndices(|traces|, skip)[k]].iline
  {
    var idx := SampledIndices(|traces|, skip);
    seq(|idx|, k requires 0 <= k < |idx| => traces[idx[k]].iline)
  }

  /** `get_segy_crosslines(segy_file, skip)`. */
  function HeaderXlines(traces: seq<Trace>, skip: int): (r: seq<int>)
    requires skip != 0
    ensures |r| == |SampledIndices(|traces|, skip)|
    ensures forall k :: 0 <= k < |r| ==> r[k] == traces[SampledIndices(|traces|, skip)[k]].xline
  {
    var idx := SampledIndices(|traces|, skip);
    seq(|idx|, k requires 0 <= k < |idx| => traces[idx[k]].xline)
  }

  /** The sampled inline headers are the inlines of the traces whose index is
      a multiple of `skip`. */
  lemma SampledInlines(traces: seq<Trace>, skip: nat, v: int)
    requires skip > 0
    ensures v in HeaderInlines(traces, skip) <==>
      exists i :: 0 <= i < |traces| && i % skip == 0 && traces[i].iline == v
  {
    var idx := SampledIndices(|traces|, skip);
    var h := HeaderInlines(traces, skip);
    if v in h {
      var k :| 0 <= k < |h| && h[k] == v;
      SampledIndicesAreMultiples(|traces|, skip, idx[k]);
      assert traces[idx[k]].iline == v;
    }
    if exists i :: 0 <= i < |traces| && i % skip == 0 && traces[i].iline == v {
      var i :| 0 <= i < |traces| && i % skip == 0 && traces[i].iline == v;
      SampledIndicesAreMultiples(|traces|, skip, i);
      var k :| 0 <= k < |idx| && idx[k] == i;
      assert h[k] == v;
    }
  }

  /** The same for the crossline headers. */
  lemma SampledXlines(traces: seq<Trace>, skip: nat, v: int)
    requires skip > 0
    ensures v in HeaderXlines(traces, skip) <==>
      exists i :: 0 <= i < |traces| && i % skip == 0 && traces[i].xline == v
  {
    var idx := SampledIndices(|traces|, skip);
    var h := HeaderXlines(traces, skip);
    if v in h {
      var k :| 0 <= k < |h| && h[k] == v;
      SampledIndicesAreMultiples(|traces|, skip, idx[k]);
      assert traces[idx[k]].xline == v;
    }
    if exists i :: 0 <= i < |traces| && i % skip == 0 && traces[i].xline == v {
      var i :| 0 <= i < |traces| && i % skip == 0 && traces[i].xline == v;
      SampledIndicesAreMultiples(|traces|, skip, i);
      var k :| 0 <= k < |idx| && idx[k] == i;
      assert h[k] == v;
    }
  }

  /** The unique inline and crossline lists hold exactly the values of the
      sampled headers, ascending and without repeats. */
  lemma UniqueLinesFromHeaders(traces: seq<Trace>, skip: nat, v: int)
    requires skip > 0
    ensures StrictlyIncreasing(SortedUnique(HeaderInlines(traces, skip)))
    ensures v in SortedUnique(HeaderInlines(traces, skip)) <==>
      exists i :: 0 <= i < |traces| && i % skip == 0 && traces[i].iline == v
    ensures v in SortedUnique(HeaderXlines(traces, skip)) <==>
      exists i :: 0 <= i < |traces| && i % skip == 0 && traces[i].xline == v
  {
    SampledInlines(traces, skip, v);
    SampledXlines(traces, skip, v);
  }

  // ---------------------------------------------------------------------
  // Placing traces

  /** First position of `v` in `s`. */
  function FirstIndex(s: seq<int>, v: int): (r: Option<nat>)
    ensures r.Some? ==> r.value < |s| && s[r.value] == v && v !in s[..r.value]
    ensures r.None? ==> v !in s
  {
    if |s| == 0 then None
    else if s[0] == v then Some(0)
    else
      match FirstIndex(s[1..], v)
      case None => None
      case Some(k) =>
        assert s[..k + 1] == [s[0]] + s[1..][..k];
        Some(k + 1)
  }

  /** `np.where(s == v)[0].item()`: the position of `v` when it occurs
      exactly once, and a failure otherwise. */
  function Locate(s: seq<int>, v: int): (r: Option<nat>)
    ensures r.Some? ==> r.value < |s| && s[r.value] == v
    ensures r.Some? ==> forall k :: 0 <= k < |s| && s[k] == v ==> k == r.value
    ensures r.None? ==> v !in s || exists a, b :: 0 <= a < b < |s| && s[a] == v && s[b] == v
  {
    match FirstIndex(s, v)
    case None => None
    case Some(k) =>
      if v in s[k + 1..] then
        None
      else
        assert forall j :: 0 <= j < k ==> s[..k][j] == s[j];
        assert forall j :: k < j < |s| ==> s[k + 1..][j - k - 1] == s[j];
        Some(k)
  }

  /** On a duplicate-free list the lookup fails exactly when the value is absent. */
  lemma LocateInUniqueList(s: seq<int>, v: int)
    requires StrictlyIncreasing(s)
    ensures Locate(s, v).Some? <==> v in s
  {
  }

  predicate Locatable(t: Trace, ilines: seq<int>, xlines: seq<int>) {
    Locate(xlines, t.xline).Some? && Locate(ilines, t.iline).Some?
  }

  /** The error raised for trace `i`: its crossline is looked up first. */
  function TraceError(i: nat, t: Trace, ilines: seq<int>, xlines: seq<int>): LoadError {
    if Locate(xlines, t.xline).None? then MissingXline(i, t.xline) else MissingIline(i, t.iline)
  }

  /** Reference content of a cube cell: the samples of the last trace with
      that inline and crossline number, or `dflt` if there is none. */
  function LastWrite(ts: seq<Trace>, iv: int, xv: int, dflt: seq<real>): seq<real> {
    if |ts| == 0 then dflt
    else if ts[|ts| - 1].iline == iv && ts[|ts| - 1].xline == xv then ts[|ts| - 1].data
    else LastWrite(ts[..|ts| - 1], iv, xv, dflt)
  }

  /** A cell no trace maps to keeps its initial value. */
  lemma {:induction false} UnwrittenCellKeepsDefault(ts: seq<Trace>, iv: int, xv: int, dflt: seq<real>)
    requires forall k :: 0 <= k < |ts| ==> !(ts[k].iline == iv && ts[k].xline == xv)
    ensures LastWrite(ts, iv, xv, dflt) == dflt
  {
    if |ts| > 0 {
      UnwrittenCellKeepsDefault(ts[..|ts| - 1], iv, xv, dflt);
    }
  }

  /** A cell holds the samples of the latest trace mapped to it: a later
      trace with the same inline and crossline overwrites an earlier one. */
  lemma {:induction false} LatestTraceWins(ts: seq<Trace>, i: nat, dflt: seq<real>)
    requires i < |ts|
    requires forall k :: i < k < |ts| ==> !(ts[k].iline == ts[i].iline && ts[k].xline == ts[i].xline)
    ensures LastWrite(ts, ts[i].iline, ts[i].xline, dflt) == ts[i].data
  {
    if i < |ts| - 1 {
      LatestTraceWins(ts[..|ts| - 1], i, dflt);
    }
  }

  /** The cube with cell `(a0, b0)` replaced by `data`. */
  function Place(cube: Cube, n1: nat, n2: nat, ns: nat, a0: nat, b0: nat, data: seq<real>): (c: Cube)
    requires IsCube(cube, n1, n2, ns) && a0 < n1 && b0 < n2 && |data| == ns
    ensures IsCube(c, n1, n2, ns)
    ensures forall a, b :: 0 <= a < n1 && 0 <= b < n2 ==>
      c[a][b] == (if a == a0 && b == b0 then data else cube[a][b])
  {
    cube[a0 := cube[a0][b0 := data]]
  }

  /** Cube cells hold the last write of the traces placed so far. */
  ghost predicate CellsAreLastWrites(cube: Cube, ts: seq<Trace>, ilines: seq<int>, xlines: seq<int>, ns: nat) {
    && IsCube(cube, |ilines|, |xlines|, ns)
    && forall a, b :: 0 <= a < |ilines| && 0 <= b < |xlines| ==>
      cube[a][b] == LastWrite(ts, ilines[a], xlines[b], Zeros(ns))
  }

  /** Writing trace `i` at its located cell extends the last-write picture
      by one trace: no other cell has its inline and crossline. */
  lemma PlaceStep(cube: Cube, traces: seq<Trace>, i: nat, ilines: seq<int>, xlines: seq<int>, ns: nat,
                  ri: nat, rx: nat)
    requires i < |traces| && |traces[i].data| == ns
    requires IsCube(cube, |ilines|, |xlines|, ns)
    requires CellsAreLastWrites(cube, traces[..i], ilines, xlines, ns)
    requires Locate(ilines, traces[i].iline) == Some(ri) && Locate(xlines, traces[i].xline) == Some(rx)
    ensures CellsAreLastWrites(Place(cube, |ilines|, |xlines|, ns, ri, rx, traces[i].data), traces[..i + 1],
                               ilines, xlines, ns)
  {
    var c := Place(cube, |ilines|, |xlines|, ns, ri, rx, traces[i].data);
    var ts := traces[..i + 1];
    assert ts[..i] == traces[..i];
    assert ts[|ts| - 1] == traces[i];
    forall a, b | 0 <= a < |ilines| && 0 <= b < |xlines|
      ensures c[a][b] == LastWrite(ts, ilines[a], xlines[b], Zeros(ns))
    {
      if a == ri && b == rx {
      } else {
        assert ilines[a] != traces[i].iline || xlines[b] != traces[i].xline;
      }
    }
  }

  /** Every one of the first `n` traces can be placed. */
  predicate LocatableUpTo(traces: seq<Trace>, n: nat, ilines: seq<int>, xlines: seq<int>)
    requires n <= |traces|
  {
    forall k :: 0 <= k < n ==> Locatable(traces[k], ilines, xlines)
  }

  /** `e` is the error raised for the first trace that cannot be placed. */
  predicate ReportsFirstFailure(e: LoadError, traces: seq<Trace>, ilines: seq<int>, xlines: seq<int>) {
    && e.trace < |traces|
    && LocatableUpTo(traces, e.trace, ilines, xlines)
    && !Locatable(traces[e.trace], ilines, xlines)
    && e == TraceError(e.trace, traces[e.trace], ilines, xlines)
  }

  /** The loop state of `create_cube_from_segy` after `i` traces: all were
      placed and every cell holds its last write. */
  ghost predicate PlacedUpTo(cube: Cube, traces: seq<Trace>, i: nat, ilines: seq<int>, xlines: seq<int>, ns: nat) {
    && i <= |traces|
    && LocatableUpTo(traces, i, ilines, xlines)
    && CellsAreLastWrites(cube, traces[..i], ilines, xlines, ns)
  }

  /** Before any trace is placed every cell holds zeros. */
  lemma NothingPlacedYet(traces: seq<Trace>, ilines: seq<int>, xlines: seq<int>, ns: nat)
    ensures PlacedUpTo(ZeroCube(|ilines|, |xlines|, ns), traces, 0, ilines, xlines, ns)
  {
    assert traces[..0] == [];
  }

  /** After the last trace the cube holds the last write of the whole file. */
  lemma EverythingPlaced(cube: Cube, traces: seq<Trace>, ilines: seq<int>, xlines: seq<int>, ns: nat)
    requires PlacedUpTo(cube, traces, |traces|, ilines, xlines, ns)
    ensures LocatableUpTo(traces, |traces|, ilines, xlines)
    ensures IsCube(cube, |ilines|, |xlines|, ns)
    ensures CellsAreLastWrites(cube, traces, ilines, xlines, ns)
  {
    assert traces[..|traces|] == traces;
  }

  /** One iteration of the loop in `create_cube_from_segy`: look up the
      crossline, then the inline, of trace `i` and write its samples there;
      the error for trace `i` when either lookup fails. */
  method PlaceTrace(cube: Cube, traces: seq<Trace>, i: nat, ilines: seq<int>, xlines: seq<int>, ns: nat)
    returns (next: Result<Cube, LoadError>)
    requires i < |traces| && |traces[i].data| == ns
    requires PlacedUpTo(cube, traces, i, ilines, xlines, ns)
    ensures next.Ok? ==> PlacedUpTo(next.value, traces, i + 1, ilines, xlines, ns)
    ensures next.Err? ==> next.error.trace == i && ReportsFirstFailure(next.error, traces, ilines, xlines)
    ensures next.Err? ==> !LocatableUpTo(traces, |traces|, ilines, xlines)
  {
    var t := traces[i];
    var rx := Locate(xlines, t.xline);
    if rx.None? {
      return Err(MissingXline(i, t.xline));
    }
    var ri := Locate(ilines, t.iline);
    if ri.None? {
      return Err(MissingIline(i, t.iline));
    }
    PlaceStep(cube, traces, i, ilines, xlines, ns, ri.value, rx.value);
    return Ok(Place(cube, |ilines|, |xlines|, ns, ri.value, rx.value, t.data));
  }

  /** `create_cube_from_segy`: a zero cube of shape `(|ilines|, |xlines|,
      ns)` into which every trace is written at the positions of its inline
      and crossline numbers, stopping at the first trace whose crossline, then
      inline, cannot be found. */
  method CreateCube(traces: seq<Trace>, ilines: seq<int>, xlines: seq<int>, ns: nat)
    returns (r: Result<Cube, LoadError>)
    requires forall k :: 0 <= k < |traces| ==> |traces[k].data| == ns
    ensures r.Ok? <==> LocatableUpTo(traces, |traces|, ilines, xlines)
    ensures r.Err? ==> ReportsFirstFailure(r.error, traces, ilines, xlines)
    ensures r.Ok? ==> IsCube(r.value, |ilines|, |xlines|, ns)
    ensures r.Ok? ==> CellsAreLastWrites(r.value, traces, ilines, xlines, ns)
  {
    var cube := ZeroCube(|ilines|, |xlines|, ns);
    var i := 0;
    NothingPlacedYet(traces, ilines, xlines, ns);
    while i < |traces|
      invariant PlacedUpTo(cube, traces, i, ilines, xlines, ns)
    {
      var next := PlaceTrace(cube, traces, i, ilines, xlines, ns);
      if next.Err? {
        return next;
      }
      cube := next.value;
      i := i + 1;
    }
    EverythingPlaced(cube, traces, ilines, xlines, ns);
    return Ok(cube);
  }

  /** Reading every header leaves no trace whose inline or crossline is
      missing from the unique lists. */
  lemma FullScanLocatesAll(traces: seq<Trace>)
    ensures LocatableUpTo(traces, |traces|, SortedUnique(HeaderInlines(traces, 1)), SortedUnique(HeaderXlines(traces, 1)))
  {
    var il := SortedUnique(HeaderInlines(traces, 1));
    var xl := SortedUnique(HeaderXlines(traces, 1));
    forall k | 0 <= k < |traces|
      ensures Locatable(traces[k], il, xl)
    {
      assert k % 1 == 0;
      UniqueLinesFromHeaders(traces, 1, traces[k].iline);
      UniqueLinesFromHeaders(traces, 1, traces[k].xline);
      LocateInUniqueList(il, traces[k].iline);
      LocateInUniqueList(xl, traces[k].xline);
    }
  }

  /** Once every trace has been placed, the unique lists built from sampled
      headers hold exactly the line numbers occurring in the file. */
  lemma PlacedLinesAreAllLines(traces: seq<Trace>, skip: nat)
    requires skip > 0
    requires LocatableUpTo(traces, |traces|, SortedUnique(HeaderInlines(traces, skip)), SortedUnique(HeaderXlines(traces, skip)))
    ensures ListsAllLines(traces, SortedUnique(HeaderInlines(traces, skip)), SortedUnique(HeaderXlines(traces, skip)))
  {
    var il := SortedUnique(HeaderInlines(traces, skip));
    var xl := SortedUnique(HeaderXlines(traces, skip));
    forall v ensures v in il <==> exists k :: 0 <= k < |traces| && traces[k].iline == v {
      UniqueLinesFromHeaders(traces, skip, v);
      if exists k :: 0 <= k < |traces| && traces[k].iline == v {
        var k :| 0 <= k < |traces| && traces[k].iline == v;
        assert Locate(il, v).Some?;
      }
    }
    forall v ensures v in xl <==> exists k :: 0 <= k < |traces| && traces[k].xline == v {
      UniqueLinesFromHeaders(traces, skip, v);
      if exists k :: 0 <= k < |traces| && traces[k].xline == v {
        var k :| 0 <= k < |traces| && traces[k].xline == v;
        assert Locate(xl, v).Some?;
      }
    }
  }

  /** `ilines` and `xlines` hold exactly the inline and crossline numbers
      occurring in the file's headers. */
  ghost predicate ListsAllLines(traces: seq<Trace>, ilines: seq<int>, xlines: seq<int>) {
    && (forall v :: v in ilines <==> exists k :: 0 <= k < |traces| && traces[k].iline == v)
    && (forall v :: v in xlines <==> exists k :: 0 <= k < |traces| && traces[k].xline == v)
  }

  /** `segy2npy`: unique lines from every 20th header; if placing a trace
      then fails, unique lines from every header and a second cube, which
      cannot fail. Returns `(cube, ilines, xlines, samples)` with the cube's
      first axis the inline. */
  method Segy2Npy(traces: seq<Trace>, fileSamples: seq<real>)
    returns (cube: Cube, ilines: seq<int>, xlines: seq<int>, samples: seq<real>)
    requires forall k :: 0 <= k < |traces| ==> |traces[k].data| == |fileSamples|
    ensures StrictlyIncreasing(ilines) && StrictlyIncreasing(xlines)
    ensures ListsAllLines(traces, ilines, xlines)
    ensures SortedBy(samples, (x: real) => x) && multiset(samples) == multiset(fileSamples)
    ensures IsCube(cube, |ilines|, |xlines|, |samples|)
    ensures CellsAreLastWrites(cube, traces, ilines, xlines, |samples|)
    ensures LocatableUpTo(traces, |traces|, SortedUnique(HeaderInlines(traces, 20)), SortedUnique(HeaderXlines(traces, 20)))
            ==> ilines == SortedUnique(HeaderInlines(traces, 20)) && xlines == SortedUnique(HeaderXlines(traces, 20))
    ensures !LocatableUpTo(traces, |traces|, SortedUnique(HeaderInlines(traces, 20)), SortedUnique(HeaderXlines(traces, 20)))
            ==> ilines == SortedUnique(HeaderInlines(traces, 1)) && xlines == SortedUnique(HeaderXlines(traces, 1))
  {
    xlines := SortedUnique(HeaderXlines(traces, 20));
    ilines := SortedUnique(HeaderInlines(traces, 20));
    samples := SortBy(fileSamples, (x: real) => x);
    var r := CreateCube(traces, ilines, xlines, |samples|);
    if r.Ok? {
      PlacedLinesAreAllLines(traces, 20);
    } else {
      xlines := SortedUnique(HeaderXlines(traces, 1));
      ilines := SortedUnique(HeaderInlines(traces, 1));
      FullScanLocatesAll(traces);
      r := CreateCube(traces, ilines, xlines, |samples|);
      PlacedLinesAreAllLines(traces, 1);
    }
    cube := r.value;
  }
}
