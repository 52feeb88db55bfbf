/** `extract_section_picks`: projecting horizon picks onto the stitched
    inline/crossline section image of the slicer. Two versions exist in the
    repository and differ only in the x coordinate given to crossline picks:
    the viewer's (scripts/utils/visualization.py) and an earlier draft
    (scripts/temp.py). A third, corrected version puts each pick in the
    column that shows its trace (see `CorrectedSectionPicks`). */
module SectionPicks {
  import opened Results
  import opened Sequences
  import opened Sorting
  import opened Binning
  import opened SectionView

  /** One horizon pick: inline number, crossline number and time/depth. */
  datatype Pick = Pick(iline: int, xline: int, z: int)

  /** A pick after `np.digitize` of its inline and crossline numbers. */
  datatype Binned = Binned(il: int, xl: int, z: int)

  /** One `(x, y)` pair to draw on the section image. */
  datatype Point = Point(x: int, y: int)

  /** The two returned arrays `(sorted_x_coords, sorted_y_coords)`. */
  datatype Section = Section(xs: seq<int>, ys: seq<int>)

  /** `min()`/`max()` of an empty inline, crossline or sample array raises
      `ValueError` before anything else happens. */
  datatype PickError = EmptyAxis

  /** Which copy of the function: the slicer's or the draft in temp.py. */
  datatype Variant = Viewer | Draft

  predicate AxesPresent(ilines: seq<int>, xlines: seq<int>, samples: seq<real>) {
    |ilines| > 0 && |xlines| > 0 && |samples| > 0
  }

  /** The geometry filter: inline and crossline within the survey's
      `[min, max]`, and time/depth strictly below the last sample. */
  predicate InSurvey(p: Pick, ilines: seq<int>, xlines: seq<int>, samples: seq<real>)
    requires AxesPresent(ilines, xlines, samples)
  {
    && MinOf(ilines) <= p.iline <= MaxOf(ilines)
    && MinOf(xlines) <= p.xline <= MaxOf(xlines)
    && (p.z as real) < MaxReal(samples)
  }

  /** The picks kept by the geometry mask, in their original order. */
  function Retained(picks: seq<Pick>, ilines: seq<int>, xlines: seq<int>, samples: seq<real>): (r: seq<Pick>)
    requires AxesPresent(ilines, xlines, samples)
    ensures |r| <= |picks|
    ensures forall p :: p in r <==> p in picks && InSurvey(p, ilines, xlines, samples)
  {
    if |picks| == 0 then []
    else
      var rest := Retained(picks[1..], ilines, xlines, samples);
      assert forall p :: p in picks <==> p == picks[0] || p in picks[1..] by {
        assert picks == [picks[0]] + picks[1..];
      }
      if InSurvey(picks[0], ilines, xlines, samples) then [picks[0]] + rest else rest
  }

  /** The mask keeps every surviving pick as many times as it occurs, and
      drops every other. */
  lemma {:induction false} RetainedCounts(picks: seq<Pick>, ilines: seq<int>, xlines: seq<int>, samples: seq<real>)
    requires AxesPresent(ilines, xlines, samples)
    ensures forall p ::
      multiset(Retained(picks, ilines, xlines, samples))[p] == (if InSurvey(p, ilines, xlines, samples) then multiset(picks)[p] else 0)
  {
    if |picks| > 0 {
      var h, t := picks[0], picks[1..];
      RetainedCounts(t, ilines, xlines, samples);
      var rest := Retained(t, ilines, xlines, samples);
      assert picks == [h] + t;
      assert multiset(picks) == multiset{h} + multiset(t);
      if InSurvey(h, ilines, xlines, samples) {
        assert Retained(picks, ilines, xlines, samples) == [h] + rest;
        assert multiset([h] + rest) == multiset{h} + multiset(rest);
      } else {
        assert Retained(picks, ilines, xlines, samples) == rest;
      }
    }
  }

  /** The positions `from..|picks|-1` of the picks the geometry mask keeps,
      ascending. */
  function KeptPositions(picks: seq<Pick>, ilines: seq<int>, xlines: seq<int>, samples: seq<real>,
                         from: nat): (ix: seq<nat>)
    requires AxesPresent(ilines, xlines, samples) && from <= |picks|
    ensures forall k :: 0 <= k < |ix| ==> from <= ix[k] < |picks|
    decreases |picks| - from
  {
    if from == |picks| then []
    else
      var rest := KeptPositions(picks, ilines, xlines, samples, from + 1);
      if InSurvey(picks[from], ilines, xlines, samples) then [from] + rest else rest
  }

  /** The kept positions ascend, and they are exactly the positions whose
      pick passes the geometry filter. */
  lemma {:induction false} KeptPositionsAscend(picks: seq<Pick>, ilines: seq<int>, xlines: seq<int>,
                                               samples: seq<real>, from: nat)
    requires AxesPresent(ilines, xlines, samples) && from <= |picks|
    ensures StrictlyIncreasing(KeptPositions(picks, ilines, xlines, samples, from))
    ensures forall i :: from <= i < |picks| ==>
      (i in KeptPositions(picks, ilines, xlines, samples, from) <==> InSurvey(picks[i], ilines, xlines, samples))
    decreases |picks| - from
  {
    if from < |picks| {
      KeptPositionsAscend(picks, ilines, xlines, samples, from + 1);
      var ix, rest := KeptPositions(picks, ilines, xlines, samples, from), KeptPositions(picks, ilines, xlines, samples, from + 1);
      assert from !in rest;
      if InSurvey(picks[from], ilines, xlines, samples) {
        assert ix == [from] + rest;
        forall a, b | 0 <= a < b < |ix| ensures ix[a] < ix[b] {
          assert ix[b] == rest[b - 1];
          if a > 0 {
            assert ix[a] == rest[a - 1];
          }
        }
        forall i | from <= i < |picks|
          ensures i in ix <==> InSurvey(picks[i], ilines, xlines, samples)
        {
          assert i in ix <==> i == from || i in rest;
        }
      }
    }
  }

  /** `r` is `picks` read at positions `ix`, in that order. */
  ghost predicate ReadsAt(r: seq<Pick>, picks: seq<Pick>, ix: seq<nat>) {
    |r| == |ix| && forall k :: 0 <= k < |ix| ==> ix[k] < |picks| && r[k] == picks[ix[k]]
  }

  lemma ReadsAtCons(r: seq<Pick>, picks: seq<Pick>, ix: seq<nat>, i: nat)
    requires ReadsAt(r, picks, ix) && i < |picks|
    ensures ReadsAt([picks[i]] + r, picks, [i] + ix)
  {
    var r', ix' := [picks[i]] + r, [i] + ix;
    forall k | 0 < k < |ix'| ensures ix'[k] < |picks| && r'[k] == picks[ix'[k]] {
      assert r'[k] == r[k - 1] && ix'[k] == ix[k - 1];
    }
  }

  /** The kept picks are the picks at the kept positions, read in order: the
      mask selects, it neither reorders nor drops nor repeats. */
  lemma {:induction false} RetainedInOrder(picks: seq<Pick>, ilines: seq<int>, xlines: seq<int>, samples: seq<real>,
                                           from: nat)
    requires AxesPresent(ilines, xlines, samples) && from <= |picks|
    ensures ReadsAt(Retained(picks[from..], ilines, xlines, samples), picks, KeptPositions(picks, ilines, xlines, samples, from))
    decreases |picks| - from
  {
    if from < |picks| {
      RetainedInOrder(picks, ilines, xlines, samples, from + 1);
      RetainedStep(picks, ilines, xlines, samples, from);
      if InSurvey(picks[from], ilines, xlines, samples) {
        ReadsAtCons(Retained(picks[from + 1..], ilines, xlines, samples), picks,
                    KeptPositions(picks, ilines, xlines, samples, from + 1), from);
      }
    }
  }

  /** One step of the mask and of the kept positions, side by side. */
  lemma RetainedStep(picks: seq<Pick>, ilines: seq<int>, xlines: seq<int>, samples: seq<real>, from: nat)
    requires AxesPresent(ilines, xlines, samples) && from < |picks|
    ensures Retained(picks[from..], ilines, xlines, samples) ==
      if InSurvey(picks[from], ilines, xlines, samples)
      then [picks[from]] + Retained(picks[from + 1..], ilines, xlines, samples)
      else Retained(picks[from + 1..], ilines, xlines, samples)
    ensures KeptPositions(picks, ilines, xlines, samples, from) ==
      if InSurvey(picks[from], ilines, xlines, samples)
      then [from] + KeptPositions(picks, ilines, xlines, samples, from + 1)
      else KeptPositions(picks, ilines, xlines, samples, from + 1)
  {
    assert picks[from..][1..] == picks[from + 1..];
  }

  /** Digitizes every pick's inline and crossline against the survey axes. */
  function BinPicks(ps: seq<Pick>, ilines: seq<int>, xlines: seq<int>): (bs: seq<Binned>)
    requires NonDecreasing(ilines) && NonDecreasing(xlines)
    ensures |bs| == |ps|
    ensures forall k :: 0 <= k < |ps| ==>
      bs[k] == Binned(Digitize(ps[k].iline, ilines), Digitize(ps[k].xline, xlines), ps[k].z)
  {
    seq(|ps|, k requires 0 <= k < |ps| =>
      Binned(Digitize(ps[k].iline, ilines), Digitize(ps[k].xline, xlines), ps[k].z))
  }

  /** A pick that passed the geometry filter falls in bins `1..|ilines|` and
      `1..|xlines|`: bin numbers are 1-based. */
  lemma SurvivorBins(p: Pick, ilines: seq<int>, xlines: seq<int>, samples: seq<real>)
    requires NonDecreasing(ilines) && NonDecreasing(xlines)
    requires AxesPresent(ilines, xlines, samples)
    requires InSurvey(p, ilines, xlines, samples)
    ensures 1 <= Digitize(p.iline, ilines) <= |ilines|
    ensures 1 <= Digitize(p.xline, xlines) <= |xlines|
  {
    SortedExtremes(ilines);
    SortedExtremes(xlines);
    DigitizeInRange(p.iline, ilines);
    DigitizeInRange(p.xline, xlines);
  }

  /** The inline loop draws digitized pick `b` as `q`: `b` lies on the
      current inline with its crossline bin before the current one, and x is
      that crossline bin. */
  predicate InlineDraws(b: Binned, q: Point, curIn: int, curXl: int) {
    b.il == curIn && b.xl < curXl && q == Point(b.xl, b.z)
  }

  /** Picks on the current inline (by bin number) whose crossline bin lies
      before the current crossline; x is the crossline bin. */
  function InlineBranch(bs: seq<Binned>, curIn: int, curXl: int): (r: seq<Point>)
    ensures |r| <= |bs|
    ensures forall q :: q in r ==> q.x < curXl
    ensures forall q :: q in r ==> exists b :: b in bs && InlineDraws(b, q, curIn, curXl)
    ensures forall b, q :: b in bs && InlineDraws(b, q, curIn, curXl) ==> q in r
  {
    if |bs| == 0 then []
    else
      var b := bs[0];
      var rest := InlineBranch(bs[1..], curIn, curXl);
      assert forall c :: c in bs <==> c == b || c in bs[1..] by {
        assert bs == [b] + bs[1..];
      }
      if b.il == curIn && b.xl < curXl then
        assert InlineDraws(b, Point(b.xl, b.z), curIn, curXl);
        [Point(b.xl, b.z)] + rest
      else rest
  }

  /** The x coordinate a crossline-branch pick with inline bin `il` gets. */
  function XCoord(v: Variant, il: int, curIn: int, curXl: int): int {
    match v
    case Viewer => il - curIn + curXl
    case Draft => il + curXl
  }

  /** The crossline loop draws digitized pick `b` as `q`: `b` lies on the
      current crossline with its inline bin beyond the current one. */
  predicate CrossDraws(v: Variant, b: Binned, q: Point, curIn: int, curXl: int) {
    b.xl == curXl && curIn < b.il && q == Point(XCoord(v, b.il, curIn, curXl), b.z)
  }

  /** Picks on the current crossline (by bin number) whose inline bin lies
      beyond the current inline. */
  function CrosslineBranch(v: Variant, bs: seq<Binned>, curIn: int, curXl: int): (r: seq<Point>)
    ensures |r| <= |bs|
    ensures v == Viewer ==> forall q :: q in r ==> curXl < q.x
    ensures v == Draft ==> forall q :: q in r ==> curIn + curXl < q.x
    ensures forall q :: q in r ==> exists b :: b in bs && CrossDraws(v, b, q, curIn, curXl)
    ensures forall b, q :: b in bs && CrossDraws(v, b, q, curIn, curXl) ==> q in r
  {
    if |bs| == 0 then []
    else
      var b := bs[0];
      var rest := CrosslineBranch(v, bs[1..], curIn, curXl);
      assert forall c :: c in bs <==> c == b || c in bs[1..] by {
        assert bs == [b] + bs[1..];
      }
      if b.xl == curXl && curIn < b.il then
        assert CrossDraws(v, b, Point(XCoord(v, b.il, curIn, curXl), b.z), curIn, curXl);
        [Point(XCoord(v, b.il, curIn, curXl), b.z)] + rest
      else rest
  }

  /** The one binned pick the inline loop draws as `q`. */
  function InlineSource(q: Point, curIn: int): Binned {
    Binned(curIn, q.x, q.y)
  }

  /** The one binned pick the crossline loop draws as `q`: the x formula is
      solved for the inline bin. */
  function CrossSource(v: Variant, q: Point, curIn: int, curXl: int): Binned {
    match v
    case Viewer => Binned(q.x + curIn - curXl, curXl, q.y)
    case Draft => Binned(q.x - curXl, curXl, q.y)
  }

  /** `InlineDraws` draws `q` from exactly one binned value. */
  lemma InlineSourceUnique(b: Binned, q: Point, curIn: int, curXl: int)
    ensures InlineDraws(b, q, curIn, curXl) <==> b == InlineSource(q, curIn) && q.x < curXl
  {
  }

  /** `CrossDraws` draws `q` from exactly one binned value. */
  lemma CrossSourceUnique(v: Variant, b: Binned, q: Point, curIn: int, curXl: int)
    ensures CrossDraws(v, b, q, curIn, curXl) <==>
      b == CrossSource(v, q, curIn, curXl) && curIn < CrossSource(v, q, curIn, curXl).il
  {
  }

  /** The inline loop appends one pair per qualifying pick: `q` appears as
      often as its one source value occurs among the binned picks. */
  lemma {:induction false} InlineCounts(bs: seq<Binned>, curIn: int, curXl: int)
    ensures forall q ::
      multiset(InlineBranch(bs, curIn, curXl))[q] ==
        (if q.x < curXl then multiset(bs)[InlineSource(q, curIn)] else 0)
  {
    if |bs| > 0 {
      var b, t := bs[0], bs[1..];
      InlineCounts(t, curIn, curXl);
      assert bs == [b] + t;
      assert multiset(bs) == multiset{b} + multiset(t);
      var rest := InlineBranch(t, curIn, curXl);
      if b.il == curIn && b.xl < curXl {
        InlineTaken(bs, curIn, curXl);
        assert multiset([Point(b.xl, b.z)] + rest) == multiset{Point(b.xl, b.z)} + multiset(rest);
        forall q ensures q == Point(b.xl, b.z) <==> b == InlineSource(q, curIn) {
          InlineSourceUnique(b, q, curIn, curXl);
        }
      } else {
        InlineSkipped(bs, curIn, curXl);
        forall q: Point | q.x < curXl ensures b != InlineSource(q, curIn) {
          InlineSourceUnique(b, q, curIn, curXl);
        }
      }
    }
  }

  /** The crossline loop appends one pair per qualifying pick: `q` appears
      as often as its one source value occurs among the binned picks. */
  lemma {:induction false} CrossCounts(v: Variant, bs: seq<Binned>, curIn: int, curXl: int)
    ensures forall q ::
      multiset(CrosslineBranch(v, bs, curIn, curXl))[q] ==
        (if curIn < CrossSource(v, q, curIn, curXl).il then multiset(bs)[CrossSource(v, q, curIn, curXl)] else 0)
  {
    if |bs| > 0 {
      var b, t := bs[0], bs[1..];
      CrossCounts(v, t, curIn, curXl);
      assert bs == [b] + t;
      assert multiset(bs) == multiset{b} + multiset(t);
      var rest := CrosslineBranch(v, t, curIn, curXl);
      if b.xl == curXl && curIn < b.il {
        var p := Point(XCoord(v, b.il, curIn, curXl), b.z);
        CrosslineTaken(v, bs, curIn, curXl);
        assert multiset([p] + rest) == multiset{p} + multiset(rest);
        forall q ensures q == p <==> b == CrossSource(v, q, curIn, curXl) {
          CrossSourceUnique(v, b, q, curIn, curXl);
        }
      } else {
        CrosslineSkipped(v, bs, curIn, curXl);
      }
    }
  }

  /** Moves every pair `dx` to the right. */
  function ShiftX(ps: seq<Point>, dx: int): seq<Point> {
    if |ps| == 0 then [] else [Point(ps[0].x + dx, ps[0].y)] + ShiftX(ps[1..], dx)
  }

  /** `ShiftX` keeps the length and moves pair `i` to `x + dx`. */
  lemma {:induction false} ShiftXPointwise(ps: seq<Point>, dx: int)
    ensures |ShiftX(ps, dx)| == |ps|
    ensures forall i :: 0 <= i < |ps| ==> ShiftX(ps, dx)[i] == Point(ps[i].x + dx, ps[i].y)
  {
    if |ps| > 0 {
      ShiftXPointwise(ps[1..], dx);
    }
  }

  /** The draft copy draws the same crossline-branch picks, in the same
      order, each shifted right by the current inline number. */
  lemma {:induction false} DraftShiftsCrossline(bs: seq<Binned>, curIn: int, curXl: int)
    ensures CrosslineBranch(Draft, bs, curIn, curXl) == ShiftX(CrosslineBranch(Viewer, bs, curIn, curXl), curIn)
  {
    if |bs| > 0 {
      var b := bs[0];
      var d, w := CrosslineBranch(Draft, bs[1..], curIn, curXl), CrosslineBranch(Viewer, bs[1..], curIn, curXl);
      DraftShiftsCrossline(bs[1..], curIn, curXl);
      if b.xl == curXl && curIn < b.il {
        var hv := Point(b.il - curIn + curXl, b.z);
        calc {
          CrosslineBranch(Draft, bs, curIn, curXl);
          { CrosslineTaken(Draft, bs, curIn, curXl); }
          [Point(b.il + curXl, b.z)] + d;
          { ShiftCons(hv, w, curIn); }
          ShiftX([hv] + w, curIn);
          { CrosslineTaken(Viewer, bs, curIn, curXl); }
          ShiftX(CrosslineBranch(Viewer, bs, curIn, curXl), curIn);
        }
      } else {
        CrosslineSkipped(Draft, bs, curIn, curXl);
        CrosslineSkipped(Viewer, bs, curIn, curXl);
      }
    }
  }

  /** A crossline-loop step that draws the first binned pick. */
  lemma CrosslineTaken(v: Variant, bs: seq<Binned>, curIn: int, curXl: int)
    requires |bs| > 0 && bs[0].xl == curXl && curIn < bs[0].il
    ensures CrosslineBranch(v, bs, curIn, curXl) ==
      [Point(XCoord(v, bs[0].il, curIn, curXl), bs[0].z)] + CrosslineBranch(v, bs[1..], curIn, curXl)
  {
  }

  /** A crossline-loop step that skips the first binned pick. */
  lemma CrosslineSkipped(v: Variant, bs: seq<Binned>, curIn: int, curXl: int)
    requires |bs| > 0 && !(bs[0].xl == curXl && curIn < bs[0].il)
    ensures CrosslineBranch(v, bs, curIn, curXl) == CrosslineBranch(v, bs[1..], curIn, curXl)
  {
  }

  /** An inline-loop step that draws the first binned pick. */
  lemma InlineTaken(bs: seq<Binned>, curIn: int, curXl: int)
    requires |bs| > 0 && bs[0].il == curIn && bs[0].xl < curXl
    ensures InlineBranch(bs, curIn, curXl) == [Point(bs[0].xl, bs[0].z)] + InlineBranch(bs[1..], curIn, curXl)
  {
  }

  /** An inline-loop step that skips the first binned pick. */
  lemma InlineSkipped(bs: seq<Binned>, curIn: int, curXl: int)
    requires |bs| > 0 && !(bs[0].il == curIn && bs[0].xl < curXl)
    ensures InlineBranch(bs, curIn, curXl) == InlineBranch(bs[1..], curIn, curXl)
  {
  }

  /** One step of the inline loop. */
  lemma InlineCons(bs: seq<Binned>, curIn: int, curXl: int)
    requires |bs| > 0
    ensures InlineBranch(bs, curIn, curXl) ==
      (if bs[0].il == curIn && bs[0].xl < curXl
       then [Point(bs[0].xl, bs[0].z)] + InlineBranch(bs[1..], curIn, curXl)
       else InlineBranch(bs[1..], curIn, curXl))
  {
  }

  /** One step of the crossline loop. */
  lemma CrosslineCons(v: Variant, bs: seq<Binned>, curIn: int, curXl: int)
    requires |bs| > 0
    ensures CrosslineBranch(v, bs, curIn, curXl) ==
      (if bs[0].xl == curXl && curIn < bs[0].il
       then [Point(XCoord(v, bs[0].il, curIn, curXl), bs[0].z)] + CrosslineBranch(v, bs[1..], curIn, curXl)
       else CrosslineBranch(v, bs[1..], curIn, curXl))
  {
  }

  lemma ShiftCons(p: Point, w: seq<Point>, dx: int)
    ensures ShiftX([p] + w, dx) == [Point(p.x + dx, p.y)] + ShiftX(w, dx)
  {
    assert ([p] + w)[1..] == w;
  }

  /** The pairs collected by the two loops, before sorting. */
  function Collected(v: Variant, ilines: seq<int>, xlines: seq<int>, samples: seq<real>,
                     picks: seq<Pick>, curIn: int, curXl: int): seq<Point>
    requires NonDecreasing(ilines) && NonDecreasing(xlines)
    requires AxesPresent(ilines, xlines, samples)
  {
    var bs := BinPicks(Retained(picks, ilines, xlines, samples), ilines, xlines);
    InlineBranch(bs, curIn, curXl) + CrosslineBranch(v, bs, curIn, curXl)
  }

  function Xs(ps: seq<Point>): (xs: seq<int>)
    ensures |xs| == |ps| && forall k :: 0 <= k < |ps| ==> xs[k] == ps[k].x
  {
    seq(|ps|, k requires 0 <= k < |ps| => ps[k].x)
  }

  function Ys(ps: seq<Point>): (ys: seq<int>)
    ensures |ys| == |ps| && forall k :: 0 <= k < |ps| ==> ys[k] == ps[k].y
  {
    seq(|ps|, k requires 0 <= k < |ps| => ps[k].y)
  }

  /** Pairs the two returned arrays back up. */
  function Zip(xs: seq<int>, ys: seq<int>): (ps: seq<Point>)
    requires |xs| == |ys|
    ensures |ps| == |xs|
    ensures Xs(ps) == xs && Ys(ps) == ys
  {
    seq(|xs|, k requires 0 <= k < |xs| => Point(xs[k], ys[k]))
  }

  lemma ZipOfSplit(ps: seq<Point>)
    ensures Zip(Xs(ps), Ys(ps)) == ps
  {
  }

  /** Splits pairs sorted by x into the two returned arrays. */
  function SortedSection(ps: seq<Point>): (s: Section)
    ensures |s.xs| == |s.ys| == |ps|
    ensures NonDecreasing(s.xs)
    ensures multiset(Zip(s.xs, s.ys)) == multiset(ps)
  {
    var sorted := SortBy(ps, (q: Point) => q.x as real);
    ZipOfSplit(sorted);
    Section(Xs(sorted), Ys(sorted))
  }

  /** `extract_section_picks` as written, in either copy. */
  function ExtractSectionPicks(v: Variant, ilines: seq<int>, xlines: seq<int>, samples: seq<real>,
                               picks: seq<Pick>, curIn: int, curXl: int): (r: Result<Section, PickError>)
    requires NonDecreasing(ilines) && NonDecreasing(xlines)
    ensures r.Err? <==> !AxesPresent(ilines, xlines, samples)
    ensures r.Ok? ==> |r.value.xs| == |r.value.ys| <= |picks|
    ensures r.Ok? ==> NonDecreasing(r.value.xs)
    ensures r.Ok? ==>
      multiset(Zip(r.value.xs, r.value.ys)) == multiset(Collected(v, ilines, xlines, samples, picks, curIn, curXl))
    ensures r.Ok? && v == Viewer ==> forall k :: 0 <= k < |r.value.xs| ==> r.value.xs[k] != curXl
  {
    if !AxesPresent(ilines, xlines, samples) then Err(EmptyAxis)
    else
      var rs := Retained(picks, ilines, xlines, samples);
      var bs := BinPicks(rs, ilines, xlines);
      var ps := InlineBranch(bs, curIn, curXl) + CrosslineBranch(v, bs, curIn, curXl);
      AtMostOnePerPick(v, bs, curIn, curXl);
      var s := SortedSection(ps);
      assert forall k :: 0 <= k < |s.xs| ==> Zip(s.xs, s.ys)[k] in multiset(ps) by {
        forall k | 0 <= k < |s.xs| ensures Zip(s.xs, s.ys)[k] in multiset(ps) {
          assert Zip(s.xs, s.ys)[k] in multiset(Zip(s.xs, s.ys));
        }
      }
      assert v == Viewer ==> forall q :: q in ps ==> q.x != curXl;
      Ok(s)
  }

  /** Each digitized pick feeds at most one of the two loops: the inline loop
      wants its inline bin equal to the current inline, the crossline loop
      wants it strictly beyond. */
  lemma {:induction false} AtMostOnePerPick(v: Variant, bs: seq<Binned>, curIn: int, curXl: int)
    ensures |InlineBranch(bs, curIn, curXl)| + |CrosslineBranch(v, bs, curIn, curXl)| <= |bs|
  {
    if |bs| > 0 {
      AtMostOnePerPick(v, bs[1..], curIn, curXl);
    }
  }

  /** A pick binned onto both the current inline and the current crossline
      is drawn by neither loop: inserting it anywhere among the binned picks
      changes neither loop's output. */
  lemma {:induction false} CornerPickDropped(v: Variant, bs: seq<Binned>, b: Binned, k: nat, curIn: int, curXl: int)
    requires b.il == curIn && b.xl == curXl && k <= |bs|
    ensures InlineBranch(bs[..k] + [b] + bs[k..], curIn, curXl) == InlineBranch(bs, curIn, curXl)
    ensures CrosslineBranch(v, bs[..k] + [b] + bs[k..], curIn, curXl) == CrosslineBranch(v, bs, curIn, curXl)
  {
    var s := bs[..k] + [b] + bs[k..];
    if k == 0 {
      assert s == [b] + bs;
      InlineCons(s, curIn, curXl);
      CrosslineCons(v, s, curIn, curXl);
      assert s[1..] == bs;
    } else {
      var t := bs[1..];
      CornerPickDropped(v, t, b, k - 1, curIn, curXl);
      assert s[1..] == t[..k - 1] + [b] + t[k - 1..];
      assert s[0] == bs[0];
      InlineCons(s, curIn, curXl);
      InlineCons(bs, curIn, curXl);
      CrosslineCons(v, s, curIn, curXl);
      CrosslineCons(v, bs, curIn, curXl);
    }
  }

  /** Pick `p` is drawn as pair `q`: it lies on the current inline by bin
      number with its crossline bin before the current one, or on the current
      crossline with its inline bin beyond the current one. */
  predicate DrawnAs(v: Variant, p: Pick, q: Point, ilines: seq<int>, xlines: seq<int>, curIn: int, curXl: int)
    requires NonDecreasing(ilines) && NonDecreasing(xlines)
  {
    var b := Binned(Digitize(p.iline, ilines), Digitize(p.xline, xlines), p.z);
    InlineDraws(b, q, curIn, curXl) || CrossDraws(v, b, q, curIn, curXl)
  }

  /** Every returned pair is some surviving pick, drawn. */
  lemma DrawnPairsComeFromPicks(v: Variant, ilines: seq<int>, xlines: seq<int>, samples: seq<real>,
                                picks: seq<Pick>, curIn: int, curXl: int, q: Point)
    requires NonDecreasing(ilines) && NonDecreasing(xlines)
    requires AxesPresent(ilines, xlines, samples)
    requires q in Zip(ExtractSectionPicks(v, ilines, xlines, samples, picks, curIn, curXl).value.xs,
                      ExtractSectionPicks(v, ilines, xlines, samples, picks, curIn, curXl).value.ys)
    ensures exists p :: p in picks && InSurvey(p, ilines, xlines, samples) && DrawnAs(v, p, q, ilines, xlines, curIn, curXl)
  {
    var s := ExtractSectionPicks(v, ilines, xlines, samples, picks, curIn, curXl).value;
    var rs := Retained(picks, ilines, xlines, samples);
    assert q in multiset(Zip(s.xs, s.ys));
    assert q in Collected(v, ilines, xlines, samples, picks, curIn, curXl);
    CollectedFromBins(v, rs, ilines, xlines, curIn, curXl, q);
  }

  /** A collected pair comes from a digitized pick, drawn. */
  lemma CollectedFromBins(v: Variant, rs: seq<Pick>, ilines: seq<int>, xlines: seq<int>,
                          curIn: int, curXl: int, q: Point)
    requires NonDecreasing(ilines) && NonDecreasing(xlines)
    requires q in InlineBranch(BinPicks(rs, ilines, xlines), curIn, curXl) +
                  CrosslineBranch(v, BinPicks(rs, ilines, xlines), curIn, curXl)
    ensures exists p :: p in rs && DrawnAs(v, p, q, ilines, xlines, curIn, curXl)
  {
    var bs := BinPicks(rs, ilines, xlines);
    var b :| b in bs && (InlineDraws(b, q, curIn, curXl) || CrossDraws(v, b, q, curIn, curXl));
    var k :| 0 <= k < |bs| && bs[k] == b;
    assert rs[k] in rs;
    assert DrawnAs(v, rs[k], q, ilines, xlines, curIn, curXl);
  }

  /** Every surviving pick on the current inline or crossline is returned. */
  lemma PicksAreDrawn(v: Variant, ilines: seq<int>, xlines: seq<int>, samples: seq<real>,
                      picks: seq<Pick>, curIn: int, curXl: int, p: Pick, q: Point)
    requires NonDecreasing(ilines) && NonDecreasing(xlines)
    requires AxesPresent(ilines, xlines, samples)
    requires p in picks && InSurvey(p, ilines, xlines, samples)
    requires DrawnAs(v, p, q, ilines, xlines, curIn, curXl)
    ensures q in Zip(ExtractSectionPicks(v, ilines, xlines, samples, picks, curIn, curXl).value.xs,
                     ExtractSectionPicks(v, ilines, xlines, samples, picks, curIn, curXl).value.ys)
  {
    var s := ExtractSectionPicks(v, ilines, xlines, samples, picks, curIn, curXl).value;
    var rs := Retained(picks, ilines, xlines, samples);
    var bs := BinPicks(rs, ilines, xlines);
    var ps := InlineBranch(bs, curIn, curXl) + CrosslineBranch(v, bs, curIn, curXl);
    assert p in rs;
    var k :| 0 <= k < |rs| && rs[k] == p;
    assert bs[k] in bs;
    assert q in ps;
    assert q in multiset(Zip(s.xs, s.ys));
  }

  // ---------------------------------------------------------------------
  // The frame/bin mismatch and its correction

  /** The 0-based trace a surviving pick sits on: one less than its bin numbers. */
  function TraceOf(p: Pick, ilines: seq<int>, xlines: seq<int>, samples: seq<real>): (t: TracePos)
    requires NonDecreasing(ilines) && NonDecreasing(xlines)
    requires AxesPresent(ilines, xlines, samples) && InSurvey(p, ilines, xlines, samples)
    ensures t.il < |ilines| && t.xl < |xlines|
    ensures ilines[t.il] <= p.iline && xlines[t.xl] <= p.xline
  {
    SurvivorBins(p, ilines, xlines, samples);
    TracePos(Digitize(p.iline, ilines) - 1, Digitize(p.xline, xlines) - 1)
  }

  /** Where the section image draws a surviving pick: in the column of its
      trace at its time/depth, or nowhere when its trace is not shown. */
  function PickPoint(p: Pick, ilines: seq<int>, xlines: seq<int>, samples: seq<real>,
                     xPos: nat, yPos: nat): (o: Option<Point>)
    requires NonDecreasing(ilines) && NonDecreasing(xlines)
    requires AxesPresent(ilines, xlines, samples) && InSurvey(p, ilines, xlines, samples)
    ensures o.Some? <==> Shown(TraceOf(p, ilines, xlines, samples), |ilines|, xPos, yPos)
    ensures o.Some? ==> o.value.y == p.z
  {
    var t := TraceOf(p, ilines, xlines, samples);
    if Shown(t, |ilines|, xPos, yPos) then Some(Point(TraceColumn(t, |ilines|, xPos, yPos), p.z)) else None
  }

  /** The surviving picks whose trace the section image shows, each placed in
      that trace's column. */
  function ShownPoints(rs: seq<Pick>, ilines: seq<int>, xlines: seq<int>, samples: seq<real>,
                       xPos: nat, yPos: nat): (r: seq<Point>)
    requires NonDecreasing(ilines) && NonDecreasing(xlines) && AxesPresent(ilines, xlines, samples)
    requires forall p :: p in rs ==> InSurvey(p, ilines, xlines, samples)
  {
    if |rs| == 0 then []
    else
      var rest := ShownPoints(rs[1..], ilines, xlines, samples, xPos, yPos);
      match PickPoint(rs[0], ilines, xlines, samples, xPos, yPos)
      case Some(q) => [q] + rest
      case None => rest
  }

  /** At most one point per pick. */
  lemma {:induction false} ShownPointsLength(rs: seq<Pick>, ilines: seq<int>, xlines: seq<int>,
                                             samples: seq<real>, xPos: nat, yPos: nat)
    requires NonDecreasing(ilines) && NonDecreasing(xlines) && AxesPresent(ilines, xlines, samples)
    requires forall p :: p in rs ==> InSurvey(p, ilines, xlines, samples)
    ensures |ShownPoints(rs, ilines, xlines, samples, xPos, yPos)| <= |rs|
  {
    if |rs| > 0 {
      assert forall p :: p in rs[1..] ==> p in rs;
      ShownPointsLength(rs[1..], ilines, xlines, samples, xPos, yPos);
    }
  }

  /** The points drawn are exactly the placements of the shown picks. */
  lemma ShownPointsMembership(rs: seq<Pick>, ilines: seq<int>, xlines: seq<int>,
                              samples: seq<real>, xPos: nat, yPos: nat, q: Point)
    requires NonDecreasing(ilines) && NonDecreasing(xlines) && AxesPresent(ilines, xlines, samples)
    requires forall p :: p in rs ==> InSurvey(p, ilines, xlines, samples)
    ensures q in ShownPoints(rs, ilines, xlines, samples, xPos, yPos) <==>
      exists p :: p in rs && PickPoint(p, ilines, xlines, samples, xPos, yPos) == Some(q)
  {
    if q in ShownPoints(rs, ilines, xlines, samples, xPos, yPos) {
      ShownPointsSound(rs, ilines, xlines, samples, xPos, yPos, q);
    }
    if p :| p in rs && PickPoint(p, ilines, xlines, samples, xPos, yPos) == Some(q) {
      ShownPointsComplete(rs, ilines, xlines, samples, xPos, yPos, p);
    }
  }

  /** Every point drawn is the placement of some shown pick. */
  lemma {:induction false} ShownPointsSound(rs: seq<Pick>, ilines: seq<int>, xlines: seq<int>,
                                            samples: seq<real>, xPos: nat, yPos: nat, q: Point)
    requires NonDecreasing(ilines) && NonDecreasing(xlines) && AxesPresent(ilines, xlines, samples)
    requires forall p :: p in rs ==> InSurvey(p, ilines, xlines, samples)
    requires q in ShownPoints(rs, ilines, xlines, samples, xPos, yPos)
    ensures exists p :: p in rs && PickPoint(p, ilines, xlines, samples, xPos, yPos) == Some(q)
  {
    var p, tl := rs[0], rs[1..];
    assert forall c :: c in tl ==> c in rs;
    if PickPoint(p, ilines, xlines, samples, xPos, yPos) != Some(q) {
      ShownPointsSound(tl, ilines, xlines, samples, xPos, yPos, q);
      var p' :| p' in tl && PickPoint(p', ilines, xlines, samples, xPos, yPos) == Some(q);
      assert p' in rs;
    }
  }

  /** Every shown pick is drawn at its placement. */
  lemma {:induction false} ShownPointsComplete(rs: seq<Pick>, ilines: seq<int>, xlines: seq<int>,
                                               samples: seq<real>, xPos: nat, yPos: nat, p: Pick)
    requires NonDecreasing(ilines) && NonDecreasing(xlines) && AxesPresent(ilines, xlines, samples)
    requires forall p :: p in rs ==> InSurvey(p, ilines, xlines, samples)
    requires p in rs && PickPoint(p, ilines, xlines, samples, xPos, yPos).Some?
    ensures PickPoint(p, ilines, xlines, samples, xPos, yPos).value in ShownPoints(rs, ilines, xlines, samples, xPos, yPos)
  {
    var tl := rs[1..];
    assert rs == [rs[0]] + tl;
    if p != rs[0] {
      assert p in tl;
      assert forall c :: c in tl ==> c in rs;
      ShownPointsComplete(tl, ilines, xlines, samples, xPos, yPos, p);
    }
  }

  /** `extract_section_picks` with bin numbers turned into 0-based indices
      before they are compared with the slicer's 0-based frames, and with x
      the image column of the pick's trace. */
  function CorrectedSectionPicks(ilines: seq<int>, xlines: seq<int>, samples: seq<real>,
                                 picks: seq<Pick>, xPos: nat, yPos: nat): (r: Result<Section, PickError>)
    requires NonDecreasing(ilines) && NonDecreasing(xlines)
    ensures r.Err? <==> !AxesPresent(ilines, xlines, samples)
    ensures r.Ok? ==> |r.value.xs| == |r.value.ys| <= |picks|
    ensures r.Ok? ==> NonDecreasing(r.value.xs)
  {
    if !AxesPresent(ilines, xlines, samples) then Err(EmptyAxis)
    else
      var rs := Retained(picks, ilines, xlines, samples);
      ShownPointsLength(rs, ilines, xlines, samples, xPos, yPos);
      Ok(SortedSection(ShownPoints(rs, ilines, xlines, samples, xPos, yPos)))
  }

  /** The corrected projection draws a pair in column `x` exactly when a
      surviving pick lies on the trace that column of the stitched image
      shows, at the pick's time/depth. */
  lemma CorrectedPicksLandOnTheirTraces(ilines: seq<int>, xlines: seq<int>, samples: seq<real>,
                                        picks: seq<Pick>, xPos: nat, yPos: nat, q: Point)
    requires NonDecreasing(ilines) && NonDecreasing(xlines) && AxesPresent(ilines, xlines, samples)
    requires xPos < |ilines|
    ensures var s := CorrectedSectionPicks(ilines, xlines, samples, picks, xPos, yPos).value;
      q in Zip(s.xs, s.ys) <==>
        (0 <= q.x && exists p :: (p in picks && InSurvey(p, ilines, xlines, samples) &&
           ColumnTrace(q.x, |ilines|, xPos, yPos) == Some(TraceOf(p, ilines, xlines, samples)) && q.y == p.z))
  {
    var s := CorrectedSectionPicks(ilines, xlines, samples, picks, xPos, yPos).value;
    var rs := Retained(picks, ilines, xlines, samples);
    var ps := ShownPoints(rs, ilines, xlines, samples, xPos, yPos);
    ShownPointsMembership(rs, ilines, xlines, samples, xPos, yPos, q);
    assert q in Zip(s.xs, s.ys) <==> q in ps by {
      assert q in Zip(s.xs, s.ys) <==> q in multiset(Zip(s.xs, s.ys));
    }
    if q in ps {
      var p :| p in rs && PickPoint(p, ilines, xlines, samples, xPos, yPos) == Some(q);
      ColumnTraceRoundTrip(q.x, TraceOf(p, ilines, xlines, samples), |ilines|, xPos, yPos);
    }
    if 0 <= q.x && exists p :: (p in picks && InSurvey(p, ilines, xlines, samples) &&
         ColumnTrace(q.x, |ilines|, xPos, yPos) == Some(TraceOf(p, ilines, xlines, samples)) && q.y == p.z)
    {
      var p :| p in picks && InSurvey(p, ilines, xlines, samples) &&
         ColumnTrace(q.x, |ilines|, xPos, yPos) == Some(TraceOf(p, ilines, xlines, samples)) && q.y == p.z;
      ColumnTraceRoundTrip(q.x, TraceOf(p, ilines, xlines, samples), |ilines|, xPos, yPos);
      assert p in rs;
      assert PickPoint(p, ilines, xlines, samples, xPos, yPos) == Some(q);
    }
  }

  // ---------------------------------------------------------------------
  // Worked examples. `ExampleAxes`, `ExampleKept`, `ExampleDigits`,
  // `ExampleSurvey` and `SortSingle` evaluate the model on one fixed survey;
  // they serve only `FrameBinMismatch`, `CornerMismatch` and
  // `CorrectedExample` below.

  /** The survey of the examples: inlines 10, 20, crosslines 5, 6, 7,
      samples 0.0 and 4.0, and one pick on inline 10, crossline 5 at depth 1. */
  lemma ExampleAxes()
    ensures StrictlyIncreasing([10, 20]) && StrictlyIncreasing([5, 6, 7])
    ensures NonDecreasing([10, 20]) && NonDecreasing([5, 6, 7])
    ensures AxesPresent([10, 20], [5, 6, 7], [0.0, 4.0])
    ensures MinOf([10, 20]) == 10 && MaxOf([10, 20]) == 20
    ensures MinOf([5, 6, 7]) == 5 && MaxOf([5, 6, 7]) == 7
    ensures MaxReal([0.0, 4.0]) == 4.0
  {
    var il, xl, sm := [10, 20], [5, 6, 7], [0.0, 4.0];
    assert StrictlyIncreasing(il) && StrictlyIncreasing(xl);
    StrictlyIncreasingIsNonDecreasing(il);
    StrictlyIncreasingIsNonDecreasing(xl);
    SortedExtremes(il);
    SortedExtremes(xl);
    assert MaxReal(sm) == 4.0 by {
      assert sm[1..] == [4.0];
    }
  }

  lemma ExampleKept()
    ensures NonDecreasing([10, 20]) && NonDecreasing([5, 6, 7])
    ensures AxesPresent([10, 20], [5, 6, 7], [0.0, 4.0])
    ensures InSurvey(Pick(10, 5, 1), [10, 20], [5, 6, 7], [0.0, 4.0])
    ensures Retained([Pick(10, 5, 1)], [10, 20], [5, 6, 7], [0.0, 4.0]) == [Pick(10, 5, 1)]
  {
    ExampleAxes();
    assert [Pick(10, 5, 1)][1..] == [];
  }

  lemma ExampleDigits()
    ensures NonDecreasing([10, 20]) && NonDecreasing([5, 6, 7])
    ensures Digitize(10, [10, 20]) == 1 && Digitize(5, [5, 6, 7]) == 1
  {
    ExampleAxes();
    DigitizeExactHit([10, 20], 0);
    DigitizeExactHit([5, 6, 7], 0);
  }

  lemma ExampleSurvey()
    ensures NonDecreasing([10, 20]) && NonDecreasing([5, 6, 7])
    ensures AxesPresent([10, 20], [5, 6, 7], [0.0, 4.0])
    ensures InSurvey(Pick(10, 5, 1), [10, 20], [5, 6, 7], [0.0, 4.0])
    ensures Retained([Pick(10, 5, 1)], [10, 20], [5, 6, 7], [0.0, 4.0]) == [Pick(10, 5, 1)]
    ensures BinPicks([Pick(10, 5, 1)], [10, 20], [5, 6, 7]) == [Binned(1, 1, 1)]
    ensures TraceOf(Pick(10, 5, 1), [10, 20], [5, 6, 7], [0.0, 4.0]) == TracePos(0, 0)
  {
    ExampleKept();
    ExampleDigits();
  }

  lemma SortSingle(q: Point)
    ensures SortedSection([q]) == Section([q.x], [q.y])
  {
    assert [q][1..] == [];
  }

  /** On the example survey, with the slicer at inline frame 0 and crossline
      frame 2, column 0 of the section image shows trace (0, 0), which holds
      the pick, yet the as-written projection draws nothing: bin number 1
      never equals frame 0. At inline frame 1 it draws the same pick in
      column 1, which shows trace (1, 1). */
  lemma FrameBinMismatch()
    ensures NonDecreasing([10, 20]) && NonDecreasing([5, 6, 7])
    ensures TraceOf(Pick(10, 5, 1), [10, 20], [5, 6, 7], [0.0, 4.0]) == TracePos(0, 0)
    ensures ColumnTrace(0, 2, 0, 2) == Some(TracePos(0, 0))
    ensures ExtractSectionPicks(Viewer, [10, 20], [5, 6, 7], [0.0, 4.0], [Pick(10, 5, 1)], 0, 2)
      == Ok(Section([], []))
    ensures ColumnTrace(1, 2, 1, 2) == Some(TracePos(1, 1))
    ensures ExtractSectionPicks(Viewer, [10, 20], [5, 6, 7], [0.0, 4.0], [Pick(10, 5, 1)], 1, 2)
      == Ok(Section([1], [1]))
  {
    ExampleSurvey();
    var bs := [Binned(1, 1, 1)];
    assert bs[1..] == [];
    assert InlineBranch(bs, 0, 2) == [];
    assert CrosslineBranch(Viewer, bs, 0, 2) == [];
    assert InlineBranch(bs, 1, 2) == [Point(1, 1)];
    assert CrosslineBranch(Viewer, bs, 1, 2) == [];
    SortSingle(Point(1, 1));
  }

  /** The code as written with both frames raised by one selects the same
      picks as the code with bin numbers minus one (only the inline x differs
      by one, and here nothing is drawn). On the example survey with the slicer at frames
      (0, 0), column 0 of the section image shows trace (0, 0), which holds
      the pick, yet even the shifted comparison draws nothing: both loops
      compare strictly, so the corner trace is never drawn. The corrected
      projection draws it in column 0. */
  lemma CornerMismatch()
    ensures NonDecreasing([10, 20]) && NonDecreasing([5, 6, 7])
    ensures TraceOf(Pick(10, 5, 1), [10, 20], [5, 6, 7], [0.0, 4.0]) == TracePos(0, 0)
    ensures ColumnTrace(0, 2, 0, 0) == Some(TracePos(0, 0))
    ensures ExtractSectionPicks(Viewer, [10, 20], [5, 6, 7], [0.0, 4.0], [Pick(10, 5, 1)], 0 + 1, 0 + 1)
      == Ok(Section([], []))
    ensures CorrectedSectionPicks([10, 20], [5, 6, 7], [0.0, 4.0], [Pick(10, 5, 1)], 0, 0)
      == Ok(Section([0], [1]))
  {
    ExampleSurvey();
    var p := Pick(10, 5, 1);
    assert [p][1..] == [];
    assert ShownPoints([p], [10, 20], [5, 6, 7], [0.0, 4.0], 0, 0) == [Point(0, 1)];
    SortSingle(Point(0, 1));
  }

  /** The corrected projection draws the example pick in column 0. */
  lemma CorrectedExample()
    ensures NonDecreasing([10, 20]) && NonDecreasing([5, 6, 7])
    ensures CorrectedSectionPicks([10, 20], [5, 6, 7], [0.0, 4.0], [Pick(10, 5, 1)], 0, 2)
      == Ok(Section([0], [1]))
  {
    ExampleSurvey();
    var p := Pick(10, 5, 1);
    assert [p][1..] == [];
    assert ShownPoints([p], [10, 20], [5, 6, 7], [0.0, 4.0], 0, 2) == [Point(0, 1)];
    SortSingle(Point(0, 1));
  }
}
