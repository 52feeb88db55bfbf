/** The bookkeeping of the structure-oriented median filter
    (scripts/processing/somf3d.py): ensemble and window sizes, the centre
    offset, the per-slice filtering loop of `somf3d`, and the 2-D/3-D
    handling and column-major transfer of `somf3dc`. The spray
    (`pwspray3d`), the filters (`mf`, `svmf`) and the compiled routine
    (`csomf3d`) are not part of this model: the spray's ensemble is an input
    and the filters are function parameters. */
module StructureMedian {
  import opened Results
  import opened Volumes

  // ---------------------------------------------------------------------
  // Sizes and the centre offset

  /** `nnp = (2*r1+1)*(2*r2+1)`: the number of spray offsets. */
  function SprayEnsembleSize(r1: nat, r2: nat): (nnp: nat)
    ensures nnp >= 1 && nnp % 2 == 1
  {
    ExpandEnsembleSize(r1, r2);
    (2 * r1 + 1) * (2 * r2 + 1)
  }

  lemma ExpandEnsembleSize(r1: nat, r2: nat)
    ensures (2 * r1 + 1) * (2 * r2 + 1) == 2 * (2 * r1 * r2 + r1 + r2) + 1
  {
    calc {
      (2 * r1 + 1) * (2 * r2 + 1);
      (2 * r1) * (2 * r2 + 1) + (2 * r2 + 1);
      (2 * r1) * (2 * r2) + 2 * r1 + 2 * r2 + 1;
      2 * (2 * r1 * r2 + r1 + r2) + 1;
    }
  }

  /** `ns2` in `somf3d` and `rmf` in `somf3dc`: the median window length
      `2*r1*r2+1`, odd and never longer than the ensemble. */
  function MedianWindowLength(r1: nat, r2: nat): (w: nat)
    ensures w % 2 == 1
    ensures w <= SprayEnsembleSize(r1, r2)
  {
    WindowFitsEnsemble(r1, r2);
    2 * r1 * r2 + 1
  }

  lemma WindowFitsEnsemble(r1: nat, r2: nat)
    ensures (2 * r1 * r2 + 1) % 2 == 1
    ensures 2 * r1 * r2 + 1 <= (2 * r1 + 1) * (2 * r2 + 1)
  {
    var k := r1 * r2;
    assert 2 * r1 * r2 == 2 * k;
    DivModOf(2 * k + 1, 2, k, 1);
    ExpandEnsembleSize(r1, r2);
  }

  /** `int(nnp/2)`: true division then truncation, which for a non-negative
      count is the floor. */
  function CenterIndex(nnp: nat): nat {
    nnp / 2
  }

  /** Row-major position of spray offset `(a, b)`, `-r1 <= a <= r1`,
      `-r2 <= b <= r2`, in the `(2*r1+1) x (2*r2+1)` offset grid. */
  function OffsetIndex(a: int, b: int, r1: nat, r2: nat): (p: nat)
    requires -(r1 as int) <= a <= r1 && -(r2 as int) <= b <= r2
    ensures p < SprayEnsembleSize(r1, r2)
  {
    MixedRadixBound(b + r2, a + r1, 2 * r2 + 1, 2 * r1 + 1);
    assert (2 * r2 + 1) * (2 * r1 + 1) == (2 * r1 + 1) * (2 * r2 + 1);
    (a + r1) * (2 * r2 + 1) + (b + r2)
  }

  /** The entry `somf3d` keeps is the zero offset: `int(nnp/2)` equals
      `(nnp-1)/2 = r1*(2*r2+1) + r2`, the position of offset `(0, 0)`. */
  lemma CenterIsZeroOffset(r1: nat, r2: nat)
    ensures CenterIndex(SprayEnsembleSize(r1, r2)) == (SprayEnsembleSize(r1, r2) - 1) / 2
    ensures CenterIndex(SprayEnsembleSize(r1, r2)) == r1 * (2 * r2 + 1) + r2
    ensures CenterIndex(SprayEnsembleSize(r1, r2)) == OffsetIndex(0, 0, r1, r2)
    ensures CenterIndex(SprayEnsembleSize(r1, r2)) < SprayEnsembleSize(r1, r2)
  {
    var nnp := SprayEnsembleSize(r1, r2);
    var c := r1 * (2 * r2 + 1) + r2;
    assert nnp == 2 * c + 1 by {
      assert (2 * r1 + 1) * (2 * r2 + 1) == 2 * r1 * (2 * r2 + 1) + (2 * r2 + 1);
    }
    DivModOf(nnp, 2, c, 1);
    DivModOf(nnp - 1, 2, c, 0);
  }

  // ---------------------------------------------------------------------
  // The per-slice loop of somf3d

  /** The spray's output, an `(n1, nnp, n2, n3)` array, grouped by its two
      trailing axes: `u[i2][i3]` is the `n1 x nnp` slice `u[:,:,i2,i3]`. */
  type Ensemble = seq<seq<Matrix>>

  ghost predicate IsEnsemble(u: Ensemble, n1: nat, nnp: nat, n2: nat, n3: nat) {
    |u| == n2 && forall i2 :: 0 <= i2 < n2 ==>
      |u[i2]| == n3 && forall i3 :: 0 <= i3 < n3 ==> IsMatrix(u[i2][i3], n1, nnp)
  }

  ghost predicate SameShape(a: Matrix, b: Matrix) {
    |a| == |b| && forall r :: 0 <= r < |a| ==> |a[r]| == |b[r]|
  }

  /** Both filters return a slice of the shape they were given. */
  ghost predicate ShapePreserving(mf: (Matrix, nat) -> Matrix, svmf: (Matrix, nat) -> (Matrix, Matrix)) {
    (forall s: Matrix, w: nat :: SameShape(mf(s, w), s)) &&
    (forall s: Matrix, w: nat :: SameShape(svmf(s, w).0, s))
  }

  /** `option == 1` runs `mf`; any other value runs `svmf` and keeps its
      first result. */
  function FilterSlice(option: int, mf: (Matrix, nat) -> Matrix, svmf: (Matrix, nat) -> (Matrix, Matrix),
                       s: Matrix, w: nat): (r: Matrix)
    ensures ShapePreserving(mf, svmf) ==> SameShape(r, s)
  {
    if option == 1 then mf(s, w) else svmf(s, w).0
  }

  /** The slices filtered so far: those with `i3' < i3`, and those with
      `i3' == i3, i2' < i2`. */
  predicate Visited(i2': nat, i3': nat, i2: nat, i3: nat) {
    i3' < i3 || (i3' == i3 && i2' < i2)
  }

  /** The double loop of `somf3d`: for each `i3`, for each `i2`, the slice
      `u[:,:,i2,i3]` is replaced by its filtered version. */
  method FilterSlices(u: Ensemble, n1: nat, nnp: nat, n2: nat, n3: nat, w: nat, option: int,
                      mf: (Matrix, nat) -> Matrix, svmf: (Matrix, nat) -> (Matrix, Matrix))
    returns (v: Ensemble)
    requires IsEnsemble(u, n1, nnp, n2, n3)
    ensures |v| == n2 && forall i2 :: 0 <= i2 < n2 ==> |v[i2]| == n3
    ensures forall i2, i3 :: 0 <= i2 < n2 && 0 <= i3 < n3 ==>
      v[i2][i3] == FilterSlice(option, mf, svmf, u[i2][i3], w)
  {
    v := u;
    var i3 := 0;
    while i3 < n3
      invariant 0 <= i3 <= n3
      invariant |v| == n2 && forall i2 :: 0 <= i2 < n2 ==> |v[i2]| == n3
      invariant forall a, b :: 0 <= a < n2 && 0 <= b < n3 ==>
        v[a][b] == (if Visited(a, b, 0, i3) then FilterSlice(option, mf, svmf, u[a][b], w) else u[a][b])
    {
      var i2 := 0;
      while i2 < n2
        invariant 0 <= i2 <= n2
        invariant |v| == n2 && forall a :: 0 <= a < n2 ==> |v[a]| == n3
        invariant forall a, b :: 0 <= a < n2 && 0 <= b < n3 ==>
          v[a][b] == (if Visited(a, b, i2, i3) then FilterSlice(option, mf, svmf, u[a][b], w) else u[a][b])
      {
        v := v[i2 := v[i2][i3 := FilterSlice(option, mf, svmf, v[i2][i3], w)]];
        i2 := i2 + 1;
      }
      i3 := i3 + 1;
    }
  }

  /** `ds = u[:, c, :, :]`: the `n1 x n2 x n3` volume of ensemble entry `c`. */
  function EnsembleEntry(v: Ensemble, n1: nat, nnp: nat, n2: nat, n3: nat, c: nat): (ds: Cube)
    requires IsEnsemble(v, n1, nnp, n2, n3) && c < nnp
    ensures IsCube(ds, n1, n2, n3)
    ensures forall i1, i2, i3 :: 0 <= i1 < n1 && 0 <= i2 < n2 && 0 <= i3 < n3 ==> ds[i1][i2][i3] == v[i2][i3][i1][c]
  {
    seq(n1, i1 requires 0 <= i1 < n1 =>
      seq(n2, i2 requires 0 <= i2 < n2 =>
        seq(n3, i3 requires 0 <= i3 < n3 => v[i2][i3][i1][c])))
  }

  /** `somf3d` given the spray's ensemble `u`: filter every slice, then keep
      the centre offset. Its result has the input's shape. */
  method Somf3d(dn: Cube, n1: nat, n2: nat, n3: nat, u: Ensemble, r1: nat, r2: nat, option: int,
                mf: (Matrix, nat) -> Matrix, svmf: (Matrix, nat) -> (Matrix, Matrix))
    returns (ds: Cube)
    requires IsCube(dn, n1, n2, n3)
    requires IsEnsemble(u, n1, SprayEnsembleSize(r1, r2), n2, n3)
    requires ShapePreserving(mf, svmf)
    ensures IsCube(ds, n1, n2, n3)
    ensures forall i1, i2, i3 :: 0 <= i1 < n1 && 0 <= i2 < n2 && 0 <= i3 < n3 ==>
      ds[i1][i2][i3] ==
        FilterSlice(option, mf, svmf, u[i2][i3], MedianWindowLength(r1, r2))[i1][OffsetIndex(0, 0, r1, r2)]
  {
    var nnp := SprayEnsembleSize(r1, r2);
    var ns2 := MedianWindowLength(r1, r2);
    var v := FilterSlices(u, n1, nnp, n2, n3, ns2, option, mf, svmf);
    assert IsEnsemble(v, n1, nnp, n2, n3) by {
      forall i2, i3 | 0 <= i2 < n2 && 0 <= i3 < n3
        ensures IsMatrix(v[i2][i3], n1, nnp)
      {
        assert SameShape(FilterSlice(option, mf, svmf, u[i2][i3], ns2), u[i2][i3]);
      }
    }
    CenterIsZeroOffset(r1, r2);
    ds := EnsembleEntry(v, n1, nnp, n2, n3, CenterIndex(nnp));
  }

  /** When the spray reproduces the input at offset `(0, 0)` and the filter
      changes nothing, `somf3d` returns its input. */
  method IdentityFilterKeepsInput(dn: Cube, n1: nat, n2: nat, n3: nat, u: Ensemble, r1: nat, r2: nat)
    returns (ds: Cube)
    requires IsCube(dn, n1, n2, n3)
    requires IsEnsemble(u, n1, SprayEnsembleSize(r1, r2), n2, n3)
    requires forall i1, i2, i3 :: 0 <= i1 < n1 && 0 <= i2 < n2 && 0 <= i3 < n3 ==>
      u[i2][i3][i1][OffsetIndex(0, 0, r1, r2)] == dn[i1][i2][i3]
    ensures ds == dn
  {
    var mf := (s: Matrix, w: nat) => s;
    var svmf := (s: Matrix, w: nat) => (s, s);
    ds := Somf3d(dn, n1, n2, n3, u, r1, r2, 1, mf, svmf);
    var ns2 := MedianWindowLength(r1, r2);
    forall i1 | 0 <= i1 < n1 ensures ds[i1] == dn[i1] {
      forall i2 | 0 <= i2 < n2 ensures ds[i1][i2] == dn[i1][i2] {
        forall i3 | 0 <= i3 < n3 ensures ds[i1][i2][i3] == dn[i1][i2][i3] {
          assert FilterSlice(1, mf, svmf, u[i2][i3], ns2) == u[i2][i3];
        }
      }
    }
  }

  // ---------------------------------------------------------------------
  // somf3dc

  /** The input of `somf3dc`: a 2-D section or a 3-D volume. */
  datatype Data = Plane(m: Matrix) | Volume(c: Cube)

  /** `dn.shape`, with a 2-D input read as `n3 = 1`. */
  ghost predicate HasDims(d: Data, n1: nat, n2: nat, n3: nat) {
    match d
    case Plane(m) => IsMatrix(m, n1, n2) && n3 == 1
    case Volume(c) => IsCube(c, n1, n2, n3)
  }

  /** A 2-D section as an `n1 x n2 x 1` volume. */
  function Lift(m: Matrix, n1: nat, n2: nat): (c: Cube)
    requires IsMatrix(m, n1, n2)
    ensures IsCube(c, n1, n2, 1)
    ensures forall i, j :: 0 <= i < n1 && 0 <= j < n2 ==> c[i][j][0] == m[i][j]
  {
    seq(n1, i requires 0 <= i < n1 => seq(n2, j requires 0 <= j < n2 => [m[i][j]]))
  }

  function AsVolume(d: Data, n1: nat, n2: nat, n3: nat): (c: Cube)
    requires HasDims(d, n1, n2, n3)
    ensures IsCube(c, n1, n2, n3)
  {
    match d
    case Plane(m) => Lift(m, n1, n2)
    case Volume(c) => c
  }

  /** `np.float32(d).flatten(order='F')`. */
  function FlattenData(d: Data, n1: nat, n2: nat, n3: nat): (v: seq<real>)
    requires HasDims(d, n1, n2, n3)
    ensures |v| == n1 * n2 * n3
  {
    FlattenF(AsVolume(d, n1, n2, n3), n1, n2, n3)
  }

  /** A 2-D section flattens column-major: entry `(i, j)` lands at `i + n1*j`. */
  lemma PlaneFlattensColumnMajor(m: Matrix, n1: nat, n2: nat, i: nat, j: nat)
    requires IsMatrix(m, n1, n2) && i < n1 && j < n2
    ensures i + n1 * j < n1 * n2 * 1
    ensures FlattenData(Plane(m), n1, n2, 1)[i + n1 * j] == m[i][j]
  {
    assert FIdx(i, j, 0, n1, n2, 1) == i + n1 * j;
  }

  /** Everything passed to `csomf3d`. */
  datatype MedianCall = MedianCall(dn: seq<real>, dipi: seq<real>, dipx: seq<real>, n1: nat, n2: nat, n3: nat,
                                   r1: nat, r2: nat, rmf: nat, option: int, order: int, eps: real, verb: int)

  /** The compiled routine's result could not be reshaped to `[n1, n2, n3]`. */
  datatype ReshapeError = ReshapeError(size: nat)

  /** `somf3dc`: flatten column-major, run the compiled filter, reshape
      column-major to `[n1, n2, n3]`. */
  function Somf3dc(dn: Data, dipi: Data, dipx: Data, n1: nat, n2: nat, n3: nat, r1: nat, r2: nat,
                   eps: real, order: int, option: int, verb: int,
                   csomf3d: MedianCall -> seq<real>): (r: Result<Cube, ReshapeError>)
    requires HasDims(dn, n1, n2, n3) && HasDims(dipi, n1, n2, n3) && HasDims(dipx, n1, n2, n3)
    ensures r.Ok? ==> IsCube(r.value, n1, n2, n3)
    ensures dn.Plane? ==> n3 == 1
    ensures r.Ok? <==> |csomf3d(Somf3dcCall(dn, dipi, dipx, n1, n2, n3, r1, r2, eps, order, option, verb))| == n1 * n2 * n3
    ensures r.Ok? ==> forall i: nat, j: nat, k: nat :: i < n1 && j < n2 && k < n3 ==>
      r.value[i][j][k] ==
        csomf3d(Somf3dcCall(dn, dipi, dipx, n1, n2, n3, r1, r2, eps, order, option, verb))[FIdx(i, j, k, n1, n2, n3)]
  {
    var ds := csomf3d(Somf3dcCall(dn, dipi, dipx, n1, n2, n3, r1, r2, eps, order, option, verb));
    if |ds| != n1 * n2 * n3 then Err(ReshapeError(|ds|)) else Ok(ReshapeF(ds, n1, n2, n3))
  }

  /** The arguments `somf3dc` hands to `csomf3d`. */
  function Somf3dcCall(dn: Data, dipi: Data, dipx: Data, n1: nat, n2: nat, n3: nat, r1: nat, r2: nat,
                       eps: real, order: int, option: int, verb: int): (call: MedianCall)
    requires HasDims(dn, n1, n2, n3) && HasDims(dipi, n1, n2, n3) && HasDims(dipx, n1, n2, n3)
    ensures call.rmf == MedianWindowLength(r1, r2)
    ensures call.n1 == n1 && call.n2 == n2 && call.n3 == n3
    ensures |call.dn| == |call.dipi| == |call.dipx| == n1 * n2 * n3
    ensures forall i: nat, j: nat, k: nat :: i < n1 && j < n2 && k < n3 ==>
      call.dn[FIdx(i, j, k, n1, n2, n3)] == AsVolume(dn, n1, n2, n3)[i][j][k]
    ensures forall i: nat, j: nat, k: nat :: i < n1 && j < n2 && k < n3 ==>
      call.dipi[FIdx(i, j, k, n1, n2, n3)] == AsVolume(dipi, n1, n2, n3)[i][j][k]
    ensures forall i: nat, j: nat, k: nat :: i < n1 && j < n2 && k < n3 ==>
      call.dipx[FIdx(i, j, k, n1, n2, n3)] == AsVolume(dipx, n1, n2, n3)[i][j][k]
    ensures call.r1 == r1 && call.r2 == r2 && call.option == option && call.order == order
    ensures call.eps == eps && call.verb == verb
  {
    MedianCall(FlattenData(dn, n1, n2, n3), FlattenData(dipi, n1, n2, n3), FlattenData(dipx, n1, n2, n3),
               n1, n2, n3, r1, r2, 2 * r1 * r2 + 1, option, order, eps, verb)
  }

  /** A compiled routine that returns its data unchanged makes `somf3dc`
      return the input as a volume (a section gains a third axis of length 1). */
  lemma Somf3dcRoundTrip(dn: Data, dipi: Data, dipx: Data, n1: nat, n2: nat, n3: nat, r1: nat, r2: nat,
                         eps: real, order: int, option: int, verb: int, csomf3d: MedianCall -> seq<real>)
    requires HasDims(dn, n1, n2, n3) && HasDims(dipi, n1, n2, n3) && HasDims(dipx, n1, n2, n3)
    requires forall call :: csomf3d(call) == call.dn
    ensures Somf3dc(dn, dipi, dipx, n1, n2, n3, r1, r2, eps, order, option, verb, csomf3d)
      == Ok(AsVolume(dn, n1, n2, n3))
  {
    ReshapeOfFlatten(AsVolume(dn, n1, n2, n3), n1, n2, n3);
  }
}
