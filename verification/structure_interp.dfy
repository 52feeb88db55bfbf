/** The bookkeeping of `soint3d` (scripts/processing/soint3d.py) around its
    conjugate-gradient solve: column-major flattening of the data, the known
    mask, the sizes and parameters of the stacked plane-wave operator, and
    the reshape of the solution. The solver itself (`solver` with `cgstep`
    and `allpass3_lop`) is not part of this model and enters as a function
    parameter. */
module StructureInterp {
  import opened Results
  import opened Volumes

  /** The dictionary handed to `allpass3_lop` for one lateral axis. */
  datatype AllPassParams = AllPassParams(nw: int, nj: int, nx: nat, ny: nat, nz: nat, drift: real, pp: seq<real>)

  /** `par_L`: both axis operators, model size and data size. */
  datatype OperatorParams = OperatorParams(ap1: AllPassParams, ap2: AllPassParams, nm: nat, nd: nat)

  /** `par_sol`: the known mask, the starting model and the verbosity. */
  datatype SolverParams = SolverParams(known: seq<real>, x0: seq<real>, verb: int)

  /** Everything passed to `solver(allpass3_lop, cgstep, nm, nd, mm, dd, niter, par_L, par_sol)`. */
  datatype SolverCall = SolverCall(nm: nat, nd: nat, mm: seq<real>, dd: seq<real>, niter: int,
                                   parL: OperatorParams, parSol: SolverParams)

  /** `DdUnbound`: without a mask, the loop assigns into `dd` before `dd`
      exists (an `UnboundLocalError`). `SizeMismatch`: the solver's result
      cannot be reshaped to the input's shape. */
  datatype SointError = DdUnbound | SizeMismatch(size: nat)

  /** `known[ii] = (dd[ii] != 0)` over a flattened mask, stored as 1.0/0.0. */
  function KnownFromMask(dd: seq<real>): (known: seq<real>)
    ensures |known| == |dd|
    ensures forall p :: 0 <= p < |dd| ==> (known[p] == 1.0 <==> dd[p] != 0.0)
    ensures forall p :: 0 <= p < |dd| ==> (known[p] == 0.0 <==> dd[p] == 0.0)
  {
    seq(|dd|, p requires 0 <= p < |dd| => if dd[p] != 0.0 then 1.0 else 0.0)
  }

  /** `soint3d` up to and including the arguments of the solver call. */
  function Soint3dSetup(din: Cube, mask: Option<Cube>, dipi: Cube, dipx: Cube, n1: nat, n2: nat, n3: nat,
                        order: int, niter: int, nj1: int, nj2: int, drift: real): (r: Result<SolverCall, SointError>)
    requires IsCube(din, n1, n2, n3) && IsCube(dipi, n1, n2, n3) && IsCube(dipx, n1, n2, n3)
    requires mask.Some? ==> IsCube(mask.value, n1, n2, n3)
    ensures r.Err? <==> mask.None? && n1 * n2 * n3 > 0
    ensures r.Err? ==> r.error == DdUnbound
    ensures r.Ok? ==> r.value.nm == r.value.parL.nm == n1 * n2 * n3
    ensures r.Ok? ==> r.value.nd == r.value.parL.nd == 2 * (n1 * n2 * n3)
    ensures r.Ok? ==> r.value.dd == Zeros(2 * (n1 * n2 * n3))
    ensures r.Ok? ==> r.value.mm == r.value.parSol.x0 && |r.value.mm| == n1 * n2 * n3
    ensures r.Ok? ==> forall i: nat, j: nat, k: nat :: i < n1 && j < n2 && k < n3 ==>
      r.value.mm[FIdx(i, j, k, n1, n2, n3)] == din[i][j][k]
    ensures r.Ok? ==> |r.value.parSol.known| == n1 * n2 * n3
    ensures r.Ok? ==> forall i: nat, j: nat, k: nat :: i < n1 && j < n2 && k < n3 ==>
      (r.value.parSol.known[FIdx(i, j, k, n1, n2, n3)] == 1.0 <==> mask.value[i][j][k] != 0.0)
    ensures r.Ok? && mask.Some? ==> r.value.parSol.known == KnownFromMask(FlattenF(mask.value, n1, n2, n3))
    ensures r.Ok? && mask.None? ==> r.value.parSol.known == Zeros(n1 * n2 * n3)
    ensures r.Ok? ==> r.value.niter == niter
    ensures r.Ok? ==> r.value.parSol.verb == 1
    ensures r.Ok? ==>
      r.value.parL.ap1 == AllPassParams(order, nj1, n1, n2, n3, drift, FlattenF(dipi, n1, n2, n3))
    ensures r.Ok? ==>
      r.value.parL.ap2 == r.value.parL.ap1.(nj := nj2, pp := FlattenF(dipx, n1, n2, n3))
  {
    var n123 := n1 * n2 * n3;
    var mm := FlattenF(din, n1, n2, n3);
    if mask.None? && n123 > 0 then Err(DdUnbound)
    else
      var known := if mask.Some? then KnownFromMask(FlattenF(mask.value, n1, n2, n3)) else Zeros(n123);
      var ap1 := AllPassParams(order, nj1, n1, n2, n3, drift, FlattenF(dipi, n1, n2, n3));
      var ap2 := AllPassParams(order, nj2, n1, n2, n3, drift, FlattenF(dipx, n1, n2, n3));
      Ok(SolverCall(n123, 2 * n123, mm, Zeros(2 * n123), niter,
                    OperatorParams(ap1, ap2, n123, 2 * n123), SolverParams(known, mm, 1)))
  }

  /** `soint3d`: the solver's model vector reshaped column-major to the
      input's shape. */
  function Soint3d(din: Cube, mask: Option<Cube>, dipi: Cube, dipx: Cube, n1: nat, n2: nat, n3: nat,
                   order: int, niter: int, nj1: int, nj2: int, drift: real,
                   solve: SolverCall -> seq<real>): (r: Result<Cube, SointError>)
    requires IsCube(din, n1, n2, n3) && IsCube(dipi, n1, n2, n3) && IsCube(dipx, n1, n2, n3)
    requires mask.Some? ==> IsCube(mask.value, n1, n2, n3)
    ensures r.Ok? ==> IsCube(r.value, n1, n2, n3)
    ensures r.Ok? <==>
      (Soint3dSetup(din, mask, dipi, dipx, n1, n2, n3, order, niter, nj1, nj2, drift).Ok? &&
       |solve(Soint3dSetup(din, mask, dipi, dipx, n1, n2, n3, order, niter, nj1, nj2, drift).value)| == n1 * n2 * n3)
    ensures r.Ok? ==> forall i: nat, j: nat, k: nat :: i < n1 && j < n2 && k < n3 ==>
      r.value[i][j][k] ==
        solve(Soint3dSetup(din, mask, dipi, dipx, n1, n2, n3, order, niter, nj1, nj2, drift).value)[FIdx(i, j, k, n1, n2, n3)]
  {
    match Soint3dSetup(din, mask, dipi, dipx, n1, n2, n3, order, niter, nj1, nj2, drift)
    case Err(e) => Err(e)
    case Ok(call) =>
      var mm2 := solve(call);
      if |mm2| != n1 * n2 * n3 then Err(SizeMismatch(|mm2|))
      else Ok(ReshapeF(mm2, n1, n2, n3))
  }

  /** A solver that hands back its starting model makes `soint3d` return the
      input: the flatten and reshape use the same order. */
  lemma UnchangedModelRoundTrips(din: Cube, mask: Option<Cube>, dipi: Cube, dipx: Cube, n1: nat, n2: nat, n3: nat,
                                 order: int, niter: int, nj1: int, nj2: int, drift: real,
                                 solve: SolverCall -> seq<real>)
    requires IsCube(din, n1, n2, n3) && IsCube(dipi, n1, n2, n3) && IsCube(dipx, n1, n2, n3)
    requires mask.Some? ==> IsCube(mask.value, n1, n2, n3)
    requires mask.Some? || n1 * n2 * n3 == 0
    requires forall c :: solve(c) == c.mm
    ensures Soint3d(din, mask, dipi, dipx, n1, n2, n3, order, niter, nj1, nj2, drift, solve) == Ok(din)
  {
    ReshapeOfFlatten(din, n1, n2, n3);
  }

  /** Known samples come back unchanged: if the solver keeps every entry the
      known vector marks, the output equals the input wherever the caller's
      mask is non-zero. */
  lemma KnownSamplesKept(din: Cube, mask: Cube, dipi: Cube, dipx: Cube, n1: nat, n2: nat, n3: nat,
                         order: int, niter: int, nj1: int, nj2: int, drift: real,
                         solve: SolverCall -> seq<real>, i: nat, j: nat, k: nat)
    requires IsCube(din, n1, n2, n3) && IsCube(dipi, n1, n2, n3) && IsCube(dipx, n1, n2, n3)
    requires IsCube(mask, n1, n2, n3)
    requires forall c: SolverCall, p: nat ::
      p < |c.mm| && p < |c.parSol.known| && p < |solve(c)| && c.parSol.known[p] == 1.0 ==> solve(c)[p] == c.mm[p]
    requires i < n1 && j < n2 && k < n3 && mask[i][j][k] != 0.0
    ensures var r := Soint3d(din, Some(mask), dipi, dipx, n1, n2, n3, order, niter, nj1, nj2, drift, solve);
      r.Ok? ==> r.value[i][j][k] == din[i][j][k]
  {
  }
}
