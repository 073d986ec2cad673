/** Dense real vectors, matrices and rank-3 tensors as nested sequences,
    with the finite sums that torch's `sum`, `cumsum` and `einsum` compute. */
module Tensors {

  type Vector = seq<real>
  type Matrix = seq<seq<real>>
  type Tensor3 = seq<Matrix>

  ghost predicate IsMatrix(m: Matrix, rows: nat, cols: nat)
  {
    |m| == rows && forall i :: 0 <= i < rows ==> |m[i]| == cols
  }

  ghost predicate IsTensor3(x: Tensor3, d0: nat, d1: nat, d2: nat)
  {
    |x| == d0 && forall i :: 0 <= i < d0 ==> IsMatrix(x[i], d1, d2)
  }

  ghost predicate IsSymmetric(m: Matrix)
    requires IsMatrix(m, |m|, |m|)
  {
    forall i, j :: 0 <= i < |m| && 0 <= j < |m| ==> m[i][j] == m[j][i]
  }

  function ZeroTensor3(d0: nat, d1: nat, d2: nat): (z: Tensor3)
    ensures IsTensor3(z, d0, d1, d2)
    ensures forall i, j, k :: 0 <= i < d0 && 0 <= j < d1 && 0 <= k < d2 ==> z[i][j][k] == 0.0
  {
    seq(d0, i => seq(d1, j => seq(d2, k => 0.0)))
  }

  /** Sum of the entries of `v`, accumulated from the front (torch.sum). */
  function Sum(v: seq<real>): real
  {
    if |v| == 0 then 0.0 else Sum(v[..|v| - 1]) + v[|v| - 1]
  }

  lemma {:induction false} SumConcat(a: seq<real>, b: seq<real>)
    ensures Sum(a + b) == Sum(a) + Sum(b)
    decreases |b|
  {
    if |b| == 0 {
      assert a + b == a;
    } else {
      assert (a + b)[..|a + b| - 1] == a + b[..|b| - 1];
      SumConcat(a, b[..|b| - 1]);
    }
  }

  /** Splitting a range sum at an inner point. */
  lemma SumSplit(v: seq<real>, i: nat, j: nat, k: nat)
    requires i <= j <= k <= |v|
    ensures Sum(v[i..k]) == Sum(v[i..j]) + Sum(v[j..k])
  {
    assert v[i..k] == v[i..j] + v[j..k];
    SumConcat(v[i..j], v[j..k]);
  }

  /** Sum of a pointwise sum is the sum of the sums. */
  lemma {:induction false} SumPointwiseAdd(a: seq<real>, b: seq<real>, c: seq<real>)
    requires |a| == |b| == |c|
    requires forall i :: 0 <= i < |c| ==> c[i] == a[i] + b[i]
    ensures Sum(c) == Sum(a) + Sum(b)
    decreases |c|
  {
    if |c| > 0 {
      var n := |c| - 1;
      SumPointwiseAdd(a[..n], b[..n], c[..n]);
    }
  }

  /** Sum of a pointwise-scaled sequence. */
  lemma {:induction false} SumScale(a: seq<real>, k: real, c: seq<real>)
    requires |a| == |c|
    requires forall i :: 0 <= i < |c| ==> c[i] == k * a[i]
    ensures Sum(c) == k * Sum(a)
    decreases |c|
  {
    if |c| > 0 {
      var n := |c| - 1;
      SumScale(a[..n], k, c[..n]);
    }
  }

  /** Two sequences with equal entries have equal sums. */
  lemma SumPointwiseEqual(a: seq<real>, b: seq<real>)
    requires |a| == |b|
    requires forall i :: 0 <= i < |a| ==> a[i] == b[i]
    ensures Sum(a) == Sum(b)
  {
    assert a == b;
  }

  /** Row sums of a rectangular block, added up. */
  function RowsThenCols(m: Matrix, rows: nat, cols: nat): real
    requires IsMatrix(m, rows, cols)
  {
    Sum(seq(rows, i requires 0 <= i < rows => Sum(m[i])))
  }

  /** Column `j` of a rectangular block. */
  function Column(m: Matrix, rows: nat, cols: nat, j: nat): (c: seq<real>)
    requires IsMatrix(m, rows, cols) && j < cols
    ensures |c| == rows && forall i :: 0 <= i < rows ==> c[i] == m[i][j]
  {
    seq(rows, i requires 0 <= i < rows => m[i][j])
  }

  /** Column sums of a rectangular block, added up. */
  function ColsThenRows(m: Matrix, rows: nat, cols: nat): real
    requires IsMatrix(m, rows, cols)
  {
    Sum(seq(cols, j requires 0 <= j < cols => Sum(Column(m, rows, cols, j))))
  }

  /** A finite double sum may be taken in either order. */
  lemma {:induction false} SumSwap(m: Matrix, rows: nat, cols: nat)
    requires IsMatrix(m, rows, cols)
    ensures RowsThenCols(m, rows, cols) == ColsThenRows(m, rows, cols)
    decreases rows
  {
    if rows > 0 {
      var n := rows - 1;
      var top := m[..n];
      SumSwap(top, n, cols);
      var rowSums := seq(rows, i requires 0 <= i < rows => Sum(m[i]));
      assert rowSums[..n] == seq(n, i requires 0 <= i < n => Sum(top[i]));
      var full := seq(cols, j requires 0 <= j < cols => Sum(Column(m, rows, cols, j)));
      var part := seq(cols, j requires 0 <= j < cols => Sum(Column(top, n, cols, j)));
      forall j | 0 <= j < cols
        ensures full[j] == part[j] + m[n][j]
      {
        assert Column(m, rows, cols, j)[..n] == Column(top, n, cols, j);
      }
      SumPointwiseAdd(part, m[n], full);
      assert RowsThenCols(m, rows, cols) == Sum(rowSums);
      assert RowsThenCols(top, n, cols) == Sum(rowSums[..n]);
      assert ColsThenRows(m, rows, cols) == Sum(full);
      assert ColsThenRows(top, n, cols) == Sum(part);
      assert Sum(rowSums) == Sum(rowSums[..n]) + Sum(m[n]);
    } else {
      var zeros := seq(cols, j requires 0 <= j < cols => Sum(Column(m, rows, cols, j)));
      SumScale(zeros, 0.0, zeros);
    }
  }

  /** Extensionality for rank-3 tensors of the same shape. */
  lemma Tensor3Equal(x: Tensor3, y: Tensor3, d0: nat, d1: nat, d2: nat)
    requires IsTensor3(x, d0, d1, d2) && IsTensor3(y, d0, d1, d2)
    requires forall i, j, k :: 0 <= i < d0 && 0 <= j < d1 && 0 <= k < d2 ==> x[i][j][k] == y[i][j][k]
    ensures x == y
  {
    forall i | 0 <= i < d0 ensures x[i] == y[i] {
      forall j | 0 <= j < d1 ensures x[i][j] == y[i][j] {
      }
    }
  }
}
