/** The array side of the 2-D slicer: the stitched inline/crossline section
    image, the depth slice and the binary threshold of an attribute volume
    (scripts/utils/visualization.py). */
module SectionView {
  import opened Results
  import opened Volumes

  /** A trace of the volume, by its 0-based inline and crossline indices. */
  datatype TracePos = TracePos(il: nat, xl: nat)

  /** `plot_section_slices(array, x_pos, y_pos)` on an `n1 x n2 x n3` volume:
      an `n3`-row image whose first `y_pos` columns are the current inline up
      to the current crossline, followed by the current crossline from the
      current inline on, and zeros after that. */
  function SectionSlices(a: Cube, n1: nat, n2: nat, n3: nat, xPos: nat, yPos: nat): (img: Matrix)
    requires IsCube(a, n1, n2, n3)
    requires xPos < n1 && yPos < n2
    ensures IsMatrix(img, n3, n1 + n2)
    ensures forall r, c :: 0 <= r < n3 && 0 <= c < yPos ==> img[r][c] == a[xPos][c][r]
    ensures forall r, c :: 0 <= r < n3 && yPos <= c < yPos + n1 - xPos ==> img[r][c] == a[xPos + (c - yPos)][yPos][r]
    ensures forall r, c :: 0 <= r < n3 && yPos + n1 - xPos <= c < n1 + n2 ==> img[r][c] == 0.0
  {
    seq(n3, r requires 0 <= r < n3 =>
      seq(n1 + n2, c requires 0 <= c < n1 + n2 =>
        if c < yPos then a[xPos][c][r]
        else if c < yPos + n1 - xPos then a[xPos + (c - yPos)][yPos][r]
        else 0.0))
  }

  /** The traces the stitched image shows: the current inline before the
      current crossline, and the current crossline from the current inline on. */
  predicate Shown(t: TracePos, n1: nat, xPos: nat, yPos: nat) {
    (t.il == xPos && t.xl < yPos) || (t.xl == yPos && xPos <= t.il < n1)
  }

  /** The image column a shown trace occupies. */
  function TraceColumn(t: TracePos, n1: nat, xPos: nat, yPos: nat): nat
    requires Shown(t, n1, xPos, yPos)
  {
    if t.il == xPos && t.xl < yPos then t.xl else yPos + (t.il - xPos)
  }

  /** The trace an image column shows, if any. */
  function ColumnTrace(c: nat, n1: nat, xPos: nat, yPos: nat): Option<TracePos>
    requires xPos < n1
  {
    if c < yPos then Some(TracePos(xPos, c))
    else if c < yPos + n1 - xPos then Some(TracePos(xPos + (c - yPos), yPos))
    else None
  }

  /** Columns and shown traces are in one-to-one correspondence. */
  lemma ColumnTraceRoundTrip(c: nat, t: TracePos, n1: nat, xPos: nat, yPos: nat)
    requires xPos < n1
    ensures ColumnTrace(c, n1, xPos, yPos) == Some(t) <==>
      (Shown(t, n1, xPos, yPos) && TraceColumn(t, n1, xPos, yPos) == c)
  {
  }

  /** Every shown trace appears, sample by sample, in its column; no other
      column holds data. */
  lemma SectionShowsTrace(a: Cube, n1: nat, n2: nat, n3: nat, xPos: nat, yPos: nat, t: TracePos)
    requires IsCube(a, n1, n2, n3) && xPos < n1 && yPos < n2
    requires Shown(t, n1, xPos, yPos)
    ensures TraceColumn(t, n1, xPos, yPos) < n1 + n2
    ensures forall r :: 0 <= r < n3 ==>
      SectionSlices(a, n1, n2, n3, xPos, yPos)[r][TraceColumn(t, n1, xPos, yPos)] == a[t.il][t.xl][r]
  {
    var img := SectionSlices(a, n1, n2, n3, xPos, yPos);
    if !(t.il == xPos && t.xl < yPos) {
      forall r | 0 <= r < n3
        ensures img[r][yPos + (t.il - xPos)] == a[t.il][t.xl][r]
      {
        assert img[r][yPos + (t.il - xPos)] == a[xPos + (t.il - xPos)][yPos][r];
      }
    }
  }

  /** `plot_depth_slice(array, z_pos)`: the `n1 x n2` map of sample `z_pos`. */
  function DepthSlice(a: Cube, n1: nat, n2: nat, n3: nat, z: nat): (m: Matrix)
    requires IsCube(a, n1, n2, n3) && z < n3
    ensures IsMatrix(m, n1, n2)
    ensures forall i, j :: 0 <= i < n1 && 0 <= j < n2 ==> m[i][j] == a[i][j][z]
  {
    seq(n1, i requires 0 <= i < n1 => seq(n2, j requires 0 <= j < n2 => a[i][j][z]))
  }

  /** The depth view and the section view agree where their planes cross:
      row `z` of the section image is the depth slice read along the current
      inline and then down the current crossline. */
  lemma DepthSliceMeetsSection(a: Cube, n1: nat, n2: nat, n3: nat, xPos: nat, yPos: nat, z: nat)
    requires IsCube(a, n1, n2, n3) && xPos < n1 && yPos < n2 && z < n3
    ensures forall c :: 0 <= c < yPos ==>
      DepthSlice(a, n1, n2, n3, z)[xPos][c] == SectionSlices(a, n1, n2, n3, xPos, yPos)[z][c]
    ensures forall i :: xPos <= i < n1 ==>
      DepthSlice(a, n1, n2, n3, z)[i][yPos] == SectionSlices(a, n1, n2, n3, xPos, yPos)[z][yPos + (i - xPos)]
  {
    var img := SectionSlices(a, n1, n2, n3, xPos, yPos);
    forall i | xPos <= i < n1
      ensures DepthSlice(a, n1, n2, n3, z)[i][yPos] == img[z][yPos + (i - xPos)]
    {
      assert img[z][yPos + (i - xPos)] == a[xPos + (i - xPos)][yPos][z];
    }
  }

  /** `threshold(arr, thresh, min, max)`: a new volume of the same shape with
      `lo` where the input is at most `thresh` and `hi` elsewhere. */
  function Threshold(a: Cube, thresh: real, lo: real, hi: real): (t: Cube)
    ensures |t| == |a|
    ensures forall i :: 0 <= i < |a| ==> |t[i]| == |a[i]|
    ensures forall i, j :: 0 <= i < |a| && 0 <= j < |a[i]| ==> |t[i][j]| == |a[i][j]|
    ensures forall i, j, k :: 0 <= i < |a| && 0 <= j < |a[i]| && 0 <= k < |a[i][j]| ==>
      t[i][j][k] == (if a[i][j][k] <= thresh then lo else hi)
  {
    seq(|a|, i requires 0 <= i < |a| =>
      seq(|a[i]|, j requires 0 <= j < |a[i]| =>
        seq(|a[i][j]|, k requires 0 <= k < |a[i][j]| =>
          if a[i][j][k] <= thresh then lo else hi)))
  }

  /** With `lo <= thresh < hi`, thresholding an already thresholded volume
      changes nothing. */
  lemma ThresholdIdempotent(a: Cube, thresh: real, lo: real, hi: real)
    requires lo <= thresh < hi
    ensures Threshold(Threshold(a, thresh, lo, hi), thresh, lo, hi) == Threshold(a, thresh, lo, hi)
  {
    var t := Threshold(a, thresh, lo, hi);
    var tt := Threshold(t, thresh, lo, hi);
    forall i | 0 <= i < |a| ensures tt[i] == t[i] {
      forall j | 0 <= j < |a[i]| ensures tt[i][j] == t[i][j] {
      }
    }
  }

  /** With `lo != hi` the thresholded entry is `hi` exactly where the input
      lies above `thresh`. */
  lemma ThresholdSeparates(a: Cube, thresh: real, lo: real, hi: real, i: nat, j: nat, k: nat)
    requires lo != hi
    requires i < |a| && j < |a[i]| && k < |a[i][j]|
    ensures Threshold(a, thresh, lo, hi)[i][j][k] == hi <==> thresh < a[i][j][k]
    ensures Threshold(a, thresh, lo, hi)[i][j][k] == lo <==> a[i][j][k] <= thresh
  {
  }
}
