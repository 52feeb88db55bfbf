/** Dense numpy volumes as nested sequences, and numpy's column-major
    (`order='F'`) flatten and reshape, which the structure-oriented wrappers
    use to hand volumes to their solvers and to take results back. */
module Volumes {

  /** A 2-D array: `m[row][col]`. */
  type Matrix = seq<seq<real>>

  /** A 3-D array: `c[i1][i2][i3]` (inline, crossline, sample). */
  type Cube = seq<seq<seq<real>>>

  ghost predicate IsMatrix(m: Matrix, rows: nat, cols: nat) {
    |m| == rows && forall r :: 0 <= r < rows ==> |m[r]| == cols
  }

  ghost predicate IsCube(c: Cube, n1: nat, n2: nat, n3: nat) {
    |c| == n1 && forall i :: 0 <= i < n1 ==> IsMatrix(c[i], n2, n3)
  }

  function Zeros(n: nat): (z: seq<real>)
    ensures |z| == n && forall k :: 0 <= k < n ==> z[k] == 0.0
  {
    seq(n, _ => 0.0)
  }

  /** `np.zeros((n1, n2, n3))`. */
  function ZeroCube(n1: nat, n2: nat, n3: nat): (c: Cube)
    ensures IsCube(c, n1, n2, n3)
    ensures forall i, j :: 0 <= i < n1 && 0 <= j < n2 ==> c[i][j] == Zeros(n3)
  {
    seq(n1, _ => seq(n2, _ => Zeros(n3)))
  }

  // ---------------------------------------------------------------------
  // Column-major index arithmetic

  lemma MulLe(a: nat, b: nat, c: nat)
    requires b <= c
    ensures a * b <= a * c
  {
  }

  /** `a + A*b` with digits `a < A`, `b < B` stays below `A*B`. */
  lemma MixedRadixBound(a: nat, b: nat, na: nat, nb: nat)
    requires a < na && b < nb
    ensures a + na * b < na * nb
  {
    MulLe(na, b, nb - 1);
    assert na * (nb - 1) == na * nb - na;
  }

  /** Division by `d` recovers the digits of `q*d + r`. */
  lemma DivModOf(p: nat, d: nat, q: nat, r: nat)
    requires 0 <= r < d && p == r + d * q
    ensures p / d == q && p % d == r
  {
    var q', r' := p / d, p % d;
    assert p == r' + d * q';
    if q' < q {
      MulLe(d, q' + 1, q);
      assert false;
    } else if q < q' {
      MulLe(d, q + 1, q');
      assert false;
    }
  }

  /** `p < d*m` leaves a quotient below `m`. */
  lemma QuotientBound(p: nat, d: nat, m: nat)
    requires d > 0 && p < d * m
    ensures p / d < m
  {
    if p / d >= m {
      MulLe(d, m, p / d);
      assert false;
    }
  }

  /** Position of entry `(i, j, k)` of an `n1 x n2 x n3` array in its
      column-major flattening: the first axis varies fastest. */
  function FIdx(i: nat, j: nat, k: nat, n1: nat, n2: nat, n3: nat): (p: nat)
    requires i < n1 && j < n2 && k < n3
    ensures p < n1 * n2 * n3
  {
    MixedRadixBound(j, k, n2, n3);
    MixedRadixBound(i, j + n2 * k, n1, n2 * n3);
    assert n1 * (n2 * n3) == n1 * n2 * n3;
    i + n1 * (j + n2 * k)
  }

  /** The three indices a flat column-major position stands for. */
  function FI(p: nat, n1: nat): nat
    requires n1 > 0
  {
    p % n1
  }

  function FJ(p: nat, n1: nat, n2: nat): nat
    requires n1 > 0 && n2 > 0
  {
    (p / n1) % n2
  }

  function FK(p: nat, n1: nat, n2: nat): nat
    requires n1 > 0 && n2 > 0
  {
    (p / n1) / n2
  }

  lemma PositiveFactors(a: nat, b: nat)
    requires a * b > 0
    ensures a > 0 && b > 0
  {
  }

  lemma DivModSplit(p: nat, d: nat)
    requires d > 0
    ensures p == p % d + d * (p / d)
  {
  }

  /** Every flat position below `n1*n2*n3` is the position of exactly the
      indices `FI`, `FJ`, `FK` recover from it. */
  lemma FDecompose(p: nat, n1: nat, n2: nat, n3: nat)
    requires p < n1 * n2 * n3
    ensures n1 > 0 && n2 > 0
    ensures FI(p, n1) < n1 && FJ(p, n1, n2) < n2 && FK(p, n1, n2) < n3
    ensures FIdx(FI(p, n1), FJ(p, n1, n2), FK(p, n1, n2), n1, n2, n3) == p
  {
    DecomposeBounds(p, n1, n2, n3);
    DecomposeValue(p, n1, n2);
  }

  lemma DecomposeBounds(p: nat, n1: nat, n2: nat, n3: nat)
    requires p < n1 * n2 * n3
    ensures n1 > 0 && n2 > 0
    ensures p % n1 < n1 && (p / n1) % n2 < n2 && (p / n1) / n2 < n3
  {
    var n23 := n2 * n3;
    assert n1 * n2 * n3 == n1 * n23;
    PositiveFactors(n1, n23);
    PositiveFactors(n2, n3);
    QuotientBound(p, n1, n23);
    QuotientBound(p / n1, n2, n3);
  }

  lemma DecomposeValue(p: nat, n1: nat, n2: nat)
    requires n1 > 0 && n2 > 0
    ensures p == p % n1 + n1 * ((p / n1) % n2 + n2 * ((p / n1) / n2))
  {
    var m := p / n1;
    DivModSplit(p, n1);
    DivModSplit(m, n2);
  }

  /** Reading the indices back from `FIdx` gives the same indices. */
  lemma FRecover(i: nat, j: nat, k: nat, n1: nat, n2: nat, n3: nat)
    requires i < n1 && j < n2 && k < n3
    ensures FI(FIdx(i, j, k, n1, n2, n3), n1) == i
    ensures FJ(FIdx(i, j, k, n1, n2, n3), n1, n2) == j
    ensures FK(FIdx(i, j, k, n1, n2, n3), n1, n2) == k
  {
    var p := FIdx(i, j, k, n1, n2, n3);
    DivModOf(p, n1, j + n2 * k, i);
    DivModOf(j + n2 * k, n2, k, j);
  }

  lemma FRecoverAll(n1: nat, n2: nat, n3: nat)
    ensures forall i: nat, j: nat, k: nat :: i < n1 && j < n2 && k < n3 ==>
      FI(FIdx(i, j, k, n1, n2, n3), n1) == i &&
      FJ(FIdx(i, j, k, n1, n2, n3), n1, n2) == j &&
      FK(FIdx(i, j, k, n1, n2, n3), n1, n2) == k
  {
    forall i: nat, j: nat, k: nat | i < n1 && j < n2 && k < n3
      ensures FI(FIdx(i, j, k, n1, n2, n3), n1) == i
      ensures FJ(FIdx(i, j, k, n1, n2, n3), n1, n2) == j
      ensures FK(FIdx(i, j, k, n1, n2, n3), n1, n2) == k
    {
      FRecover(i, j, k, n1, n2, n3);
    }
  }

  /** Distinct index triples have distinct flat positions. */
  lemma FIdxInjective(i: nat, j: nat, k: nat, i': nat, j': nat, k': nat, n1: nat, n2: nat, n3: nat)
    requires i < n1 && j < n2 && k < n3 && i' < n1 && j' < n2 && k' < n3
    requires FIdx(i, j, k, n1, n2, n3) == FIdx(i', j', k', n1, n2, n3)
    ensures i == i' && j == j' && k == k'
  {
    FRecover(i, j, k, n1, n2, n3);
    FRecover(i', j', k', n1, n2, n3);
  }

  // ---------------------------------------------------------------------
  // Flatten and reshape

  /** `c.flatten(order='F')`. */
  function FlattenF(c: Cube, n1: nat, n2: nat, n3: nat): (v: seq<real>)
    requires IsCube(c, n1, n2, n3)
    ensures |v| == n1 * n2 * n3
    ensures forall i: nat, j: nat, k: nat :: i < n1 && j < n2 && k < n3 ==> v[FIdx(i, j, k, n1, n2, n3)] == c[i][j][k]
  {
    FRecoverAll(n1, n2, n3);
    seq(n1 * n2 * n3, p requires 0 <= p < n1 * n2 * n3 =>
      FDecompose(p, n1, n2, n3);
      c[FI(p, n1)][FJ(p, n1, n2)][FK(p, n1, n2)])
  }

  /** `v.reshape(n1, n2, n3, order='F')`, defined when the sizes agree. */
  function ReshapeF(v: seq<real>, n1: nat, n2: nat, n3: nat): (c: Cube)
    requires |v| == n1 * n2 * n3
    ensures IsCube(c, n1, n2, n3)
    ensures forall i: nat, j: nat, k: nat :: i < n1 && j < n2 && k < n3 ==> c[i][j][k] == v[FIdx(i, j, k, n1, n2, n3)]
  {
    seq(n1, i requires 0 <= i < n1 =>
      seq(n2, j requires 0 <= j < n2 =>
        seq(n3, k requires 0 <= k < n3 => v[FIdx(i, j, k, n1, n2, n3)])))
  }

  /** Reshaping a column-major flattening gives the volume back. */
  lemma ReshapeOfFlatten(c: Cube, n1: nat, n2: nat, n3: nat)
    requires IsCube(c, n1, n2, n3)
    ensures ReshapeF(FlattenF(c, n1, n2, n3), n1, n2, n3) == c
  {
    var c' := ReshapeF(FlattenF(c, n1, n2, n3), n1, n2, n3);
    forall i | 0 <= i < n1 ensures c'[i] == c[i] {
      forall j | 0 <= j < n2 ensures c'[i][j] == c[i][j] {
      }
    }
  }

  /** Flattening a column-major reshape gives the vector back. */
  lemma FlattenOfReshape(v: seq<real>, n1: nat, n2: nat, n3: nat)
    requires |v| == n1 * n2 * n3
    ensures FlattenF(ReshapeF(v, n1, n2, n3), n1, n2, n3) == v
  {
    var v' := FlattenF(ReshapeF(v, n1, n2, n3), n1, n2, n3);
    forall p | 0 <= p < |v| ensures v'[p] == v[p] {
      FDecompose(p, n1, n2, n3);
    }
  }
}
