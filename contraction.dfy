/** Contraction of primitive-Gaussian quantities into basis-function
    quantities (hmolcgauss_gen.py, `HamiltonMoleculeCGaussGenerator._contract`
    and the basis contraction in `__init__`).

    Each basis function is a group of consecutive primitives. With a uniform
    group size the source reshapes and sums; with ragged sizes it takes
    cumulative sums, samples them at `cumsum(nelmts) - 1` and differences
    neighbours. The reference meaning of both is the plain block sum. */
module Contraction {
  import opened Wrappers
  import opened Tensors

  /** `nelmts`: one group size for every basis function, or one size each. */
  datatype NElmts = Uniform(size: nat) | Ragged(sizes: seq<nat>)

  /** Index of the first primitive of group `p`: the sizes of the groups
      before it, added up. */
  function Start(sizes: seq<nat>, p: nat): nat
    requires p <= |sizes|
  {
    if p == 0 then 0 else Start(sizes, p - 1) + sizes[p - 1]
  }

  /** Number of primitives in all groups together. */
  function Total(sizes: seq<nat>): nat
  {
    Start(sizes, |sizes|)
  }

  /** Group boundaries never decrease. */
  lemma {:induction false} StartMonotone(sizes: seq<nat>, p: nat, q: nat)
    requires p <= q <= |sizes|
    ensures Start(sizes, p) <= Start(sizes, q)
    decreases q - p
  {
    if p < q {
      StartMonotone(sizes, p + 1, q);
    }
  }

  /** Every group lies within the first `Total(sizes)` primitives. */
  lemma GroupBounds(sizes: seq<nat>, p: nat)
    requires p < |sizes|
    ensures Start(sizes, p) <= Start(sizes, p + 1) <= Total(sizes)
  {
    StartMonotone(sizes, p + 1, |sizes|);
  }

  /** `csnelmts = cumsum(nelmts) - 1`: the index of each group's last
      primitive, which is -1 for an empty leading group. */
  function LastIndices(sizes: seq<nat>): (idx: seq<int>)
    ensures |idx| == |sizes|
  {
    seq(|sizes|, p requires 0 <= p < |sizes| => Start(sizes, p + 1) - 1)
  }

  /** Python indexing into a sequence of length `len`: a negative index
      counts from the end; anything else out of range is an IndexError. */
  function PyIndex(len: nat, i: int): (r: Option<nat>)
    ensures r.Some? <==> -(len as int) <= i < len
    ensures r.Some? ==> r.value < len && (r.value == i || r.value == len + i)
  {
    if 0 <= i < len then Some(i)
    else if -(len as int) <= i < 0 then Some((len as int + i) as nat)
    else None
  }

  predicate IndicesInRange(len: nat, idx: seq<int>)
  {
    forall k :: 0 <= k < |idx| ==> PyIndex(len, idx[k]).Some?
  }

  /** `torch.cumsum` of a vector: entry `i` sums entries `0..i`. */
  function CumSum(v: Vector): (c: Vector)
    ensures |c| == |v|
  {
    seq(|v|, i requires 0 <= i < |v| => Sum(v[..i + 1]))
  }

  /** `xs[idx]` for a sequence of indices, with Python's index semantics. */
  function Gather(xs: Vector, idx: seq<int>): (g: Vector)
    requires IndicesInRange(|xs|, idx)
    ensures |g| == |idx|
  {
    seq(|idx|, k requires 0 <= k < |idx| => xs[PyIndex(|xs|, idx[k]).value])
  }

  /** `cat((g[:1], g[1:] - g[:-1]))`: the first entry, then neighbour differences. */
  function Differences(g: Vector): (d: Vector)
    ensures |d| == |g|
  {
    seq(|g|, k requires 0 <= k < |g| => if k == 0 then g[0] else g[k] - g[k - 1])
  }

  /** The ragged branch on one vector as the source writes it. */
  function GroupSumsAsWritten(v: Vector, sizes: seq<nat>): (g: Vector)
    requires IndicesInRange(|v|, LastIndices(sizes))
    ensures |g| == |sizes|
  {
    Differences(Gather(CumSum(v), LastIndices(sizes)))
  }

  /** Cumulative sums with a leading zero: entry `k` sums the first `k` entries. */
  function PrefixSums(v: Vector): (pre: Vector)
    ensures |pre| == |v| + 1
  {
    [0.0] + CumSum(v)
  }

  /** The ragged branch sampling cumulative sums with a leading zero at the
      group boundaries, so that an empty group, leading or not, sums to zero.
      More groups than primitives is an IndexError in both versions. */
  function GroupSums(v: Vector, sizes: seq<nat>): (g: Vector)
    requires Total(sizes) <= |v|
    ensures |g| == |sizes|
  {
    var pre := PrefixSums(v);
    seq(|sizes|, p requires 0 <= p < |sizes| =>
      GroupBounds(sizes, p);
      pre[Start(sizes, p + 1)] - pre[Start(sizes, p)])
  }

  /** Reference meaning: the sum of each group's entries. */
  function BlockSums(v: Vector, sizes: seq<nat>): (b: Vector)
    requires Total(sizes) <= |v|
    ensures |b| == |sizes|
  {
    seq(|sizes|, p requires 0 <= p < |sizes| =>
      GroupBounds(sizes, p);
      Sum(v[Start(sizes, p)..Start(sizes, p + 1)]))
  }

  lemma PrefixSumsAt(v: Vector, k: nat)
    requires k <= |v|
    ensures PrefixSums(v)[k] == Sum(v[..k])
  {
    if k == 0 {
      assert v[..0] == [];
    }
  }

  /** A difference of prefix sums is the sum of the range between them. */
  lemma PrefixDifference(v: Vector, i: nat, j: nat)
    requires i <= j <= |v|
    ensures PrefixSums(v)[j] - PrefixSums(v)[i] == Sum(v[i..j])
  {
    PrefixSumsAt(v, i);
    PrefixSumsAt(v, j);
    var w := v[..j];
    SumSplit(w, 0, i, j);
    assert w[0..i] == v[..i];
    assert w[0..j] == w;
    assert w[i..j] == v[i..j];
  }

  lemma GroupSumsAt(v: Vector, sizes: seq<nat>, p: nat)
    requires Total(sizes) <= |v| && p < |sizes|
    ensures GroupSums(v, sizes)[p] == BlockSums(v, sizes)[p]
  {
    GroupBounds(sizes, p);
    var lo, hi := Start(sizes, p), Start(sizes, p + 1);
    assert GroupSums(v, sizes)[p] == PrefixSums(v)[hi] - PrefixSums(v)[lo];
    assert BlockSums(v, sizes)[p] == Sum(v[lo..hi]);
    PrefixDifference(v, lo, hi);
  }

  /** The corrected ragged branch computes exactly the group sums. */
  lemma GroupSumsAreBlockSums(v: Vector, sizes: seq<nat>)
    requires Total(sizes) <= |v|
    ensures GroupSums(v, sizes) == BlockSums(v, sizes)
  {
    forall p | 0 <= p < |sizes|
      ensures GroupSums(v, sizes)[p] == BlockSums(v, sizes)[p]
    {
      GroupSumsAt(v, sizes, p);
    }
  }

  /** With a non-empty first group every sampled index lies in `[0, Total)`. */
  lemma LastIndexBounds(sizes: seq<nat>, p: nat)
    requires |sizes| > 0 && sizes[0] > 0
    requires p < |sizes|
    ensures 0 <= LastIndices(sizes)[p] < Total(sizes)
  {
    StartMonotone(sizes, 1, p + 1);
    GroupBounds(sizes, p);
  }

  /** With a non-empty first group the sampled indices are all in range
      exactly when the groups fit in the vector. */
  lemma AsWrittenIndicesInRange(len: nat, sizes: seq<nat>)
    requires |sizes| > 0 ==> sizes[0] > 0
    ensures IndicesInRange(len, LastIndices(sizes)) <==> Total(sizes) <= len
  {
    var idx := LastIndices(sizes);
    if |sizes| > 0 {
      if Total(sizes) <= len {
        forall k | 0 <= k < |idx|
          ensures PyIndex(len, idx[k]).Some?
        {
          LastIndexBounds(sizes, k);
        }
      } else {
        var last := |sizes| - 1;
        assert idx[last] == Total(sizes) - 1;
        assert PyIndex(len, idx[last]).None?;
      }
    }
  }

  /** With at least one entry, index -1 is always valid, so the sampled
      indices are in range exactly when the groups fit, whatever the first
      group's size. */
  lemma IndicesInRangeWithEntries(len: nat, sizes: seq<nat>)
    requires len > 0
    ensures IndicesInRange(len, LastIndices(sizes)) <==> Total(sizes) <= len
  {
    var idx := LastIndices(sizes);
    if Total(sizes) <= len {
      forall k | 0 <= k < |idx|
        ensures PyIndex(len, idx[k]).Some?
      {
        GroupBounds(sizes, k);
      }
    } else {
      var last := |sizes| - 1;
      assert idx[last] == Total(sizes) - 1;
      assert PyIndex(len, idx[last]).None?;
    }
  }

  /** The source samples, for group `p`, the sum of all primitives up to the
      end of that group. */
  lemma SampledPrefix(v: Vector, sizes: seq<nat>, p: nat)
    requires |sizes| > 0 && sizes[0] > 0
    requires Total(sizes) <= |v| && p < |sizes|
    requires IndicesInRange(|v|, LastIndices(sizes))
    ensures Start(sizes, p + 1) <= |v|
    ensures Gather(CumSum(v), LastIndices(sizes))[p] == PrefixSums(v)[Start(sizes, p + 1)]
  {
    LastIndexBounds(sizes, p);
    GroupBounds(sizes, p);
    var i := Start(sizes, p + 1) - 1;
    assert LastIndices(sizes)[p] == i;
    assert PyIndex(|v|, i) == Some(i);
  }

  /** Whenever the first group is non-empty, the source's ragged branch agrees
      with the corrected one. */
  lemma AsWrittenAgrees(v: Vector, sizes: seq<nat>)
    requires |sizes| > 0 ==> sizes[0] > 0
    requires Total(sizes) <= |v|
    ensures IndicesInRange(|v|, LastIndices(sizes))
    ensures GroupSumsAsWritten(v, sizes) == GroupSums(v, sizes)
  {
    AsWrittenIndicesInRange(|v|, sizes);
    var g := Gather(CumSum(v), LastIndices(sizes));
    var pre := PrefixSums(v);
    var d := Differences(g);
    forall p | 0 <= p < |sizes|
      ensures d[p] == GroupSums(v, sizes)[p]
    {
      GroupBounds(sizes, p);
      SampledPrefix(v, sizes, p);
      if p == 0 {
      } else {
        SampledPrefix(v, sizes, p - 1);
      }
    }
  }

  /** An empty leading group: index -1 wraps to the last cumulative sum, so
      the empty group receives the sum of everything and the next group
      nothing, where the group sums are 0 and the total. */
  lemma LeadingEmptyGroupMisplaced(v: Vector)
    requires |v| == 2
    ensures IndicesInRange(2, LastIndices([0, 2]))
    ensures GroupSumsAsWritten(v, [0, 2]) == [v[0] + v[1], 0.0]
    ensures GroupSums(v, [0, 2]) == [0.0, v[0] + v[1]]
  {
    var sizes: seq<nat> := [0, 2];
    assert Start(sizes, 1) == 0 && Start(sizes, 2) == 2;
    assert LastIndices(sizes) == [-1, 1];
    assert Sum(v[..1]) == v[0] by { assert v[..1][..0] == []; }
    assert Sum(v[..2]) == v[0] + v[1] by { assert v[..2] == v; assert v[..1] == v[..2][..1]; }
    assert CumSum(v) == [v[0], v[0] + v[1]];
    assert Gather(CumSum(v), LastIndices(sizes)) == [v[0] + v[1], v[0] + v[1]];
    assert PrefixSums(v) == [0.0, v[0], v[0] + v[1]];
  }

  /** Sizes [0, 1, 1]: the empty first group receives the total, the second
      a negated entry and the third the right one, where the group sums are
      0, the first entry and the second. No index is out of range, so no
      error is raised. */
  lemma LeadingEmptyThreeGroups(v: Vector)
    requires |v| == 2
    ensures IndicesInRange(2, LastIndices([0, 1, 1]))
    ensures GroupSumsAsWritten(v, [0, 1, 1]) == [v[0] + v[1], -v[1], v[1]]
    ensures Total([0, 1, 1]) == 2
    ensures GroupSums(v, [0, 1, 1]) == [0.0, v[0], v[1]]
  {
    var sizes: seq<nat> := [0, 1, 1];
    assert Start(sizes, 1) == 0 && Start(sizes, 2) == 1 && Start(sizes, 3) == 2;
    assert CumSum(v) == [v[0], v[0] + v[1]] by {
      assert Sum(v[..1]) == v[0] by { assert v[..1][..0] == []; }
      assert Sum(v[..2]) == v[0] + v[1] by { assert v[..2] == v; assert v[..1] == v[..2][..1]; }
    }
    assert GroupSumsAsWritten(v, sizes) == [v[0] + v[1], -v[1], v[1]] by {
      assert LastIndices(sizes) == [-1, 0, 1];
      var g := Gather(CumSum(v), LastIndices(sizes));
      assert g == [v[0] + v[1], v[0], v[0] + v[1]];
      assert Differences(g) == [v[0] + v[1], -v[1], v[1]];
    }
    assert GroupSums(v, sizes) == [0.0, v[0], v[1]] by {
      assert PrefixSums(v) == [0.0, v[0], v[0] + v[1]];
    }
  }

  /** No primitives and one empty group: index -1 into an empty cumulative
      sum raises IndexError, where the corrected contraction yields the one
      empty group. */
  lemma EmptyGroupOfNothing(mat: Matrix)
    requires IsMatrix(mat, 0, 0)
    ensures ContractAsWritten(mat, [], Ragged([0])) == Failure(IndexError)
    ensures Contract(mat, [], Ragged([0])).Success?
  {
    assert Start([0], 1) == 0;
    assert LastIndices([0]) == [-1];
    assert !IndicesInRange(0, LastIndices([0])) by { assert PyIndex(0, LastIndices([0])[0]).None?; }
  }

  // ---------------------------------------------------------------------
  // Matrices: rows grouped first (cumsum along dim 1), then columns.

  /** `mat * coeffs2`, where `coeffs2[i][j] = coeffs[j] * coeffs[i]`. */
  function Weighted(mat: Matrix, coeffs: Vector): (w: Matrix)
    requires IsMatrix(mat, |coeffs|, |coeffs|)
    ensures IsMatrix(w, |coeffs|, |coeffs|)
  {
    seq(|coeffs|, i requires 0 <= i < |coeffs| =>
      seq(|coeffs|, j requires 0 <= j < |coeffs| => mat[i][j] * (coeffs[j] * coeffs[i])))
  }

  /** The ragged step along rows, as written: column `j` of the result is the
      ragged branch applied to column `j` of `m`. */
  function GroupRowsAsWritten(m: Matrix, rows: nat, cols: nat, sizes: seq<nat>): (c: Matrix)
    requires IsMatrix(m, rows, cols) && IndicesInRange(rows, LastIndices(sizes))
    ensures IsMatrix(c, |sizes|, cols)
  {
    seq(|sizes|, p requires 0 <= p < |sizes| =>
      seq(cols, j requires 0 <= j < cols => GroupSumsAsWritten(Column(m, rows, cols, j), sizes)[p]))
  }

  /** The ragged step along columns, as written. */
  function GroupColsAsWritten(m: Matrix, rows: nat, cols: nat, sizes: seq<nat>): (c: Matrix)
    requires IsMatrix(m, rows, cols) && IndicesInRange(cols, LastIndices(sizes))
    ensures IsMatrix(c, rows, |sizes|)
  {
    seq(rows, i requires 0 <= i < rows => GroupSumsAsWritten(m[i], sizes))
  }

  /** The corrected ragged step along rows. */
  function GroupRows(m: Matrix, rows: nat, cols: nat, sizes: seq<nat>): (c: Matrix)
    requires IsMatrix(m, rows, cols) && Total(sizes) <= rows
    ensures IsMatrix(c, |sizes|, cols)
  {
    seq(|sizes|, p requires 0 <= p < |sizes| =>
      seq(cols, j requires 0 <= j < cols => GroupSums(Column(m, rows, cols, j), sizes)[p]))
  }

  /** The corrected ragged step along columns. */
  function GroupCols(m: Matrix, rows: nat, cols: nat, sizes: seq<nat>): (c: Matrix)
    requires IsMatrix(m, rows, cols) && Total(sizes) <= cols
    ensures IsMatrix(c, rows, |sizes|)
  {
    seq(rows, i requires 0 <= i < rows => GroupSums(m[i], sizes))
  }

  lemma BlockIndex(p: nat, i: nat, nb: nat, ne: nat)
    requires p < nb && i < ne
    ensures p * ne + i < (p + 1) * ne <= nb * ne
  {
  }

  /** The uniform branch: `mat.view(nb, ne, nb, ne).sum(-1).sum(-2)`. */
  function ContractUniform(w: Matrix, nb: nat, ne: nat): (c: Matrix)
    requires IsMatrix(w, nb * ne, nb * ne)
    ensures IsMatrix(c, nb, nb)
  {
    seq(nb, p requires 0 <= p < nb =>
      seq(nb, q requires 0 <= q < nb =>
        Sum(seq(ne, i requires 0 <= i < ne =>
          BlockIndex(p, i, nb, ne);
          Sum(seq(ne, j requires 0 <= j < ne =>
            BlockIndex(q, j, nb, ne);
            w[p * ne + i][q * ne + j]))))))
  }

  /** The rows `r0..r1` and columns `c0..c1` of `m`. */
  function Block(m: Matrix, rows: nat, cols: nat, r0: nat, r1: nat, c0: nat, c1: nat): (b: Matrix)
    requires IsMatrix(m, rows, cols) && r0 <= r1 <= rows && c0 <= c1 <= cols
    ensures IsMatrix(b, r1 - r0, c1 - c0)
  {
    seq(r1 - r0, i requires 0 <= i < r1 - r0 => m[r0 + i][c0..c1])
  }

  /** Reference meaning of a contracted entry: the sum of one block. */
  function BlockSum(m: Matrix, rows: nat, cols: nat, r0: nat, r1: nat, c0: nat, c1: nat): real
    requires IsMatrix(m, rows, cols) && r0 <= r1 <= rows && c0 <= c1 <= cols
  {
    RowsThenCols(Block(m, rows, cols, r0, r1, c0, c1), r1 - r0, c1 - c0)
  }

  /** `nelmts` as explicit group sizes: a uniform size `ne` is `nb` groups of `ne`. */
  function Groups(n: nat, nelmts: NElmts): (g: seq<nat>)
    requires nelmts.Uniform? ==> nelmts.size > 0
  {
    match nelmts
    case Uniform(ne) => seq(n / ne, _ => ne)
    case Ragged(sizes) => sizes
  }

  lemma {:induction false} StartUniform(ne: nat, nb: nat, p: nat)
    requires p <= nb
    ensures Start(seq(nb, _ => ne), p) == p * ne
    decreases p
  {
    var g := seq(nb, _ => ne);
    if p == 0 {

    } else {
      StartUniform(ne, nb, p - 1);
    }
  }

  lemma UniformSplit(n: nat, ne: nat)
    requires ne > 0 && n % ne == 0
    ensures (n / ne) * ne == n
  {
  }

  /** `_contract` as written. Uniform sizes are those the constructor's
      sizing checks accepted. */
  function ContractAsWritten(mat: Matrix, coeffs: Vector, nelmts: NElmts): (r: Result<Matrix, Exception>)
    requires IsMatrix(mat, |coeffs|, |coeffs|)
    requires nelmts.Uniform? ==> nelmts.size > 0 && |coeffs| % nelmts.size == 0
    ensures r.Failure? ==> r.error == IndexError && nelmts.Ragged?
  {
    var n := |coeffs|;
    var w := Weighted(mat, coeffs);
    match nelmts
    case Uniform(ne) =>
      UniformSplit(n, ne);
      Success(ContractUniform(w, n / ne, ne))
    case Ragged(sizes) =>
      if IndicesInRange(n, LastIndices(sizes)) then
        Success(GroupColsAsWritten(GroupRowsAsWritten(w, n, n, sizes), |sizes|, n, sizes))
      else
        Failure(IndexError)
  }

  /** `_contract` with the corrected ragged branch; the rest of the model uses this. */
  function Contract(mat: Matrix, coeffs: Vector, nelmts: NElmts): (r: Result<Matrix, Exception>)
    requires IsMatrix(mat, |coeffs|, |coeffs|)
    requires nelmts.Uniform? ==> nelmts.size > 0 && |coeffs| % nelmts.size == 0
    ensures r.Failure? ==> r.error == IndexError && nelmts.Ragged?
  {
    var n := |coeffs|;
    var w := Weighted(mat, coeffs);
    match nelmts
    case Uniform(ne) =>
      UniformSplit(n, ne);
      Success(ContractUniform(w, n / ne, ne))
    case Ragged(sizes) =>
      if Total(sizes) <= n then
        Success(GroupCols(GroupRows(w, n, n, sizes), |sizes|, n, sizes))
      else
        Failure(IndexError)
  }

  /** Entry (p, j) of the corrected row step sums column `j` over group `p`. */
  lemma GroupRowsCell(m: Matrix, rows: nat, cols: nat, sizes: seq<nat>, p: nat, j: nat)
    requires IsMatrix(m, rows, cols) && Total(sizes) <= rows && p < |sizes| && j < cols
    ensures Start(sizes, p) <= Start(sizes, p + 1) <= rows
    ensures GroupRows(m, rows, cols, sizes)[p][j]
         == Sum(Column(m, rows, cols, j)[Start(sizes, p)..Start(sizes, p + 1)])
  {
    GroupBounds(sizes, p);
    var col := Column(m, rows, cols, j);
    assert GroupRows(m, rows, cols, sizes)[p][j] == GroupSums(col, sizes)[p];
    assert GroupSums(col, sizes)[p] == Sum(col[Start(sizes, p)..Start(sizes, p + 1)]) by {
      GroupSumsAt(col, sizes, p);
    }
  }

  /** Entry (i, q) of the corrected column step sums row `i` over group `q`. */
  lemma GroupColsCell(m: Matrix, rows: nat, cols: nat, sizes: seq<nat>, i: nat, q: nat)
    requires IsMatrix(m, rows, cols) && Total(sizes) <= cols && i < rows && q < |sizes|
    ensures Start(sizes, q) <= Start(sizes, q + 1) <= cols
    ensures GroupCols(m, rows, cols, sizes)[i][q] == Sum(m[i][Start(sizes, q)..Start(sizes, q + 1)])
  {
    GroupBounds(sizes, q);
    GroupSumsAt(m[i], sizes, q);
  }

  /** A column of a block is a slice of a column of the whole matrix. */
  lemma BlockColumn(m: Matrix, rows: nat, cols: nat, r0: nat, r1: nat, c0: nat, c1: nat, jj: nat)
    requires IsMatrix(m, rows, cols) && r0 <= r1 <= rows && c0 <= c1 <= cols && jj < c1 - c0
    ensures Column(Block(m, rows, cols, r0, r1, c0, c1), r1 - r0, c1 - c0, jj)
         == Column(m, rows, cols, c0 + jj)[r0..r1]
  {
  }

  /** After the row step, entry (p, j) for a column `j` of group `q` is the
      sum of the matching column of the (p, q) block. */
  lemma RowStepInBlock(w: Matrix, n: nat, sizes: seq<nat>, p: nat, q: nat, jj: nat)
    requires IsMatrix(w, n, n) && Total(sizes) <= n && p < |sizes| && q < |sizes|
    requires Start(sizes, q) + jj < Start(sizes, q + 1)
    ensures Start(sizes, p) <= Start(sizes, p + 1) <= n
    ensures Start(sizes, q) <= Start(sizes, q + 1) <= n
    ensures GroupRows(w, n, n, sizes)[p][Start(sizes, q) + jj]
         == Sum(Column(Block(w, n, n, Start(sizes, p), Start(sizes, p + 1), Start(sizes, q), Start(sizes, q + 1)),
                       Start(sizes, p + 1) - Start(sizes, p), Start(sizes, q + 1) - Start(sizes, q), jj))
  {
    GroupBounds(sizes, q);
    GroupRowsCell(w, n, n, sizes, p, Start(sizes, q) + jj);
    BlockColumn(w, n, n, Start(sizes, p), Start(sizes, p + 1), Start(sizes, q), Start(sizes, q + 1), jj);
  }

  lemma SliceMatches(row: Vector, lo: nat, hi: nat, vals: Vector)
    requires lo <= hi <= |row| && |vals| == hi - lo
    requires forall jj :: 0 <= jj < hi - lo ==> row[lo + jj] == vals[jj]
    ensures row[lo..hi] == vals
  {
  }

  /** After the row step, the columns of group `q` in row `p` hold the
      column sums of the (p, q) block. */
  lemma RowStepSlice(w: Matrix, n: nat, sizes: seq<nat>, p: nat, q: nat)
    requires IsMatrix(w, n, n) && Total(sizes) <= n && p < |sizes| && q < |sizes|
    ensures Start(sizes, p) <= Start(sizes, p + 1) <= n
    ensures Start(sizes, q) <= Start(sizes, q + 1) <= n
    ensures
      var sp, ep, sq, eq := Start(sizes, p), Start(sizes, p + 1), Start(sizes, q), Start(sizes, q + 1);
      var b := Block(w, n, n, sp, ep, sq, eq);
      GroupRows(w, n, n, sizes)[p][sq..eq]
        == seq(eq - sq, jj requires 0 <= jj < eq - sq => Sum(Column(b, ep - sp, eq - sq, jj)))
  {
    GroupBounds(sizes, p);
    GroupBounds(sizes, q);
    var sp, ep := Start(sizes, p), Start(sizes, p + 1);
    var sq, eq := Start(sizes, q), Start(sizes, q + 1);
    var b := Block(w, n, n, sp, ep, sq, eq);
    var colSums := seq(eq - sq, jj requires 0 <= jj < eq - sq => Sum(Column(b, ep - sp, eq - sq, jj)));
    var row := GroupRows(w, n, n, sizes)[p];
    assert row[sq..eq] == colSums by {
      forall jj | 0 <= jj < eq - sq
        ensures row[sq + jj] == colSums[jj]
      {
        RowStepInBlock(w, n, sizes, p, q, jj);
      }
      SliceMatches(row, sq, eq, colSums);
    }
  }

  /** The corrected ragged branch contracts each pair of groups to the sum of
      their block. */
  lemma RaggedCell(w: Matrix, n: nat, sizes: seq<nat>, p: nat, q: nat)
    requires IsMatrix(w, n, n) && Total(sizes) <= n && p < |sizes| && q < |sizes|
    ensures Start(sizes, p) <= Start(sizes, p + 1) <= n
    ensures Start(sizes, q) <= Start(sizes, q + 1) <= n
    ensures GroupCols(GroupRows(w, n, n, sizes), |sizes|, n, sizes)[p][q]
         == BlockSum(w, n, n, Start(sizes, p), Start(sizes, p + 1), Start(sizes, q), Start(sizes, q + 1))
  {
    GroupBounds(sizes, p);
    GroupBounds(sizes, q);
    var sp, ep := Start(sizes, p), Start(sizes, p + 1);
    var sq, eq := Start(sizes, q), Start(sizes, q + 1);
    var m1 := GroupRows(w, n, n, sizes);
    GroupColsCell(m1, |sizes|, n, sizes, p, q);
    RowStepSlice(w, n, sizes, p, q);
    SumSwap(Block(w, n, n, sp, ep, sq, eq), ep - sp, eq - sq);
  }

  /** The uniform branch contracts each pair of groups to the sum of their block. */
  lemma UniformCell(w: Matrix, nb: nat, ne: nat, p: nat, q: nat)
    requires IsMatrix(w, nb * ne, nb * ne) && p < nb && q < nb
    ensures p * ne + ne <= nb * ne && q * ne + ne <= nb * ne
    ensures ContractUniform(w, nb, ne)[p][q]
         == BlockSum(w, nb * ne, nb * ne, p * ne, p * ne + ne, q * ne, q * ne + ne)
  {
    var n := nb * ne;
    assert p * ne + ne <= n && q * ne + ne <= n by {
      if ne > 0 {
        BlockIndex(p, 0, nb, ne);
        BlockIndex(q, 0, nb, ne);
      }
    }
    var b := Block(w, n, n, p * ne, p * ne + ne, q * ne, q * ne + ne);
    var rowSums := seq(ne, i requires 0 <= i < ne => Sum(b[i]));
    assert BlockSum(w, n, n, p * ne, p * ne + ne, q * ne, q * ne + ne) == Sum(rowSums);
    var entry := seq(ne, i requires 0 <= i < ne =>
      BlockIndex(p, i, nb, ne);
      Sum(seq(ne, j requires 0 <= j < ne => BlockIndex(q, j, nb, ne); w[p * ne + i][q * ne + j])));
    assert ContractUniform(w, nb, ne)[p][q] == Sum(entry);
    forall i | 0 <= i < ne
      ensures entry[i] == rowSums[i]
    {
      BlockIndex(p, i, nb, ne);
      assert seq(ne, j requires 0 <= j < ne => BlockIndex(q, j, nb, ne); w[p * ne + i][q * ne + j]) == b[i];
    }
    assert entry == rowSums;
  }

  /** `UniformCell` with the block bounds written as group starts. */
  lemma UniformCellStart(w: Matrix, nb: nat, ne: nat, p: nat, q: nat)
    requires IsMatrix(w, nb * ne, nb * ne) && p < nb && q < nb
    ensures
      var g := seq(nb, _ => ne);
      Start(g, p) <= Start(g, p + 1) <= nb * ne && Start(g, q) <= Start(g, q + 1) <= nb * ne &&
      ContractUniform(w, nb, ne)[p][q]
        == BlockSum(w, nb * ne, nb * ne, Start(g, p), Start(g, p + 1), Start(g, q), Start(g, q + 1))
  {
    StartUniform(ne, nb, p);
    StartUniform(ne, nb, q);
    UniformCell(w, nb, ne, p, q);
  }

  /** One entry of the uniform branch equals the same entry of the ragged
      branch given equal sizes. */
  lemma UniformRaggedCell(w: Matrix, nb: nat, ne: nat, p: nat, q: nat)
    requires IsMatrix(w, nb * ne, nb * ne) && p < nb && q < nb
    ensures Total(seq(nb, _ => ne)) == nb * ne
    ensures ContractUniform(w, nb, ne)[p][q]
         == GroupCols(GroupRows(w, nb * ne, nb * ne, seq(nb, _ => ne)), nb, nb * ne, seq(nb, _ => ne))[p][q]
  {
    StartUniform(ne, nb, nb);
    UniformCellStart(w, nb, ne, p, q);
    RaggedCell(w, nb * ne, seq(nb, _ => ne), p, q);
  }

  /** `nelmts` given as equal ragged sizes contracts exactly as the uniform size. */
  lemma UniformAgreesWithRagged(w: Matrix, nb: nat, ne: nat)
    requires IsMatrix(w, nb * ne, nb * ne)
    ensures Total(seq(nb, _ => ne)) == nb * ne
    ensures ContractUniform(w, nb, ne)
         == GroupCols(GroupRows(w, nb * ne, nb * ne, seq(nb, _ => ne)), nb, nb * ne, seq(nb, _ => ne))
  {
    var n, g := nb * ne, seq(nb, _ => ne);
    StartUniform(ne, nb, nb);
    var u := ContractUniform(w, nb, ne);
    var c := GroupCols(GroupRows(w, n, n, g), nb, n, g);
    forall p | 0 <= p < nb
      ensures u[p] == c[p]
    {
      forall q | 0 <= q < nb
        ensures u[p][q] == c[p][q]
      {
        UniformRaggedCell(w, nb, ne, p, q);
      }
    }
  }

  /** `_contract` fails exactly when the groups need more primitives than
      there are, and otherwise returns one entry per pair of groups. */
  lemma ContractSucceeds(mat: Matrix, coeffs: Vector, nelmts: NElmts)
    requires IsMatrix(mat, |coeffs|, |coeffs|)
    requires nelmts.Uniform? ==> nelmts.size > 0 && |coeffs| % nelmts.size == 0
    ensures Contract(mat, coeffs, nelmts).Success? <==> Total(Groups(|coeffs|, nelmts)) <= |coeffs|
    ensures Contract(mat, coeffs, nelmts).Failure? ==> Contract(mat, coeffs, nelmts).error == IndexError
    ensures Contract(mat, coeffs, nelmts).Success? ==>
      var g := Groups(|coeffs|, nelmts);
      IsMatrix(Contract(mat, coeffs, nelmts).value, |g|, |g|)
  {
    if nelmts.Uniform? {
      var ne := nelmts.size;
      UniformSplit(|coeffs|, ne);
      StartUniform(ne, |coeffs| / ne, |coeffs| / ne);
    }
  }

  /** The uniform branch in terms of the group starts of `Groups`. */
  lemma UniformBlockSum(w: Matrix, n: nat, ne: nat, p: nat, q: nat)
    requires ne > 0 && n % ne == 0 && IsMatrix(w, n, n) && p < n / ne && q < n / ne
    ensures (n / ne) * ne == n
    ensures
      var g := Groups(n, Uniform(ne));
      Start(g, p) <= Start(g, p + 1) <= n && Start(g, q) <= Start(g, q + 1) <= n &&
      ContractUniform(w, n / ne, ne)[p][q]
        == BlockSum(w, n, n, Start(g, p), Start(g, p + 1), Start(g, q), Start(g, q + 1))
  {
    UniformSplit(n, ne);
    UniformCellStart(w, n / ne, ne, p, q);
  }

  /** Each entry of the contracted matrix is the sum of the weighted
      primitive entries over the block of its two groups. */
  lemma ContractIsBlockSum(mat: Matrix, coeffs: Vector, nelmts: NElmts, p: nat, q: nat)
    requires IsMatrix(mat, |coeffs|, |coeffs|)
    requires nelmts.Uniform? ==> nelmts.size > 0 && |coeffs| % nelmts.size == 0
    requires Contract(mat, coeffs, nelmts).Success?
    requires p < |Groups(|coeffs|, nelmts)| && q < |Groups(|coeffs|, nelmts)|
    ensures
      var g, n := Groups(|coeffs|, nelmts), |coeffs|;
      Start(g, p) <= Start(g, p + 1) <= n && Start(g, q) <= Start(g, q + 1) <= n &&
      IsMatrix(Contract(mat, coeffs, nelmts).value, |g|, |g|) &&
      Contract(mat, coeffs, nelmts).value[p][q]
        == BlockSum(Weighted(mat, coeffs), n, n, Start(g, p), Start(g, p + 1), Start(g, q), Start(g, q + 1))
  {
    var g, n := Groups(|coeffs|, nelmts), |coeffs|;
    ContractSucceeds(mat, coeffs, nelmts);
    var w := Weighted(mat, coeffs);
    match nelmts
    case Uniform(ne) =>
      UniformBlockSum(w, n, ne, p, q);
    case Ragged(sizes) =>
      RaggedCell(w, n, sizes, p, q);
  }

  /** With a non-empty first group the as-written row step is the corrected one. */
  lemma GroupRowsAgree(m: Matrix, rows: nat, cols: nat, sizes: seq<nat>)
    requires IsMatrix(m, rows, cols) && Total(sizes) <= rows
    requires |sizes| > 0 ==> sizes[0] > 0
    ensures IndicesInRange(rows, LastIndices(sizes))
    ensures GroupRowsAsWritten(m, rows, cols, sizes) == GroupRows(m, rows, cols, sizes)
  {
    AsWrittenIndicesInRange(rows, sizes);
    var a, c := GroupRowsAsWritten(m, rows, cols, sizes), GroupRows(m, rows, cols, sizes);
    forall p | 0 <= p < |sizes|
      ensures a[p] == c[p]
    {
      forall j | 0 <= j < cols
        ensures a[p][j] == c[p][j]
      {
        AsWrittenAgrees(Column(m, rows, cols, j), sizes);
      }
    }
  }

  /** With a non-empty first group the as-written column step is the corrected one. */
  lemma GroupColsAgree(m: Matrix, rows: nat, cols: nat, sizes: seq<nat>)
    requires IsMatrix(m, rows, cols) && Total(sizes) <= cols
    requires |sizes| > 0 ==> sizes[0] > 0
    ensures IndicesInRange(cols, LastIndices(sizes))
    ensures GroupColsAsWritten(m, rows, cols, sizes) == GroupCols(m, rows, cols, sizes)
  {
    AsWrittenIndicesInRange(cols, sizes);
    var a, c := GroupColsAsWritten(m, rows, cols, sizes), GroupCols(m, rows, cols, sizes);
    forall i | 0 <= i < rows
      ensures a[i] == c[i]
    {
      AsWrittenAgrees(m[i], sizes);
    }
  }

  /** `_contract` as written agrees with the corrected version, errors
      included, whenever the first group is non-empty. */
  lemma ContractAsWrittenAgrees(mat: Matrix, coeffs: Vector, nelmts: NElmts)
    requires IsMatrix(mat, |coeffs|, |coeffs|)
    requires nelmts.Uniform? ==> nelmts.size > 0 && |coeffs| % nelmts.size == 0
    requires nelmts.Ragged? && |nelmts.sizes| > 0 ==> nelmts.sizes[0] > 0
    ensures ContractAsWritten(mat, coeffs, nelmts) == Contract(mat, coeffs, nelmts)
  {
    if nelmts.Ragged? {
      var n, sizes := |coeffs|, nelmts.sizes;
      AsWrittenIndicesInRange(n, sizes);
      if Total(sizes) <= n {
        var w := Weighted(mat, coeffs);
        GroupRowsAgree(w, n, n, sizes);
        GroupColsAgree(GroupRows(w, n, n, sizes), |sizes|, n, sizes);
      }
    }
  }

  /** A block of a symmetric matrix sums like its mirror block. */
  lemma BlockSumMirror(w: Matrix, n: nat, r0: nat, r1: nat, c0: nat, c1: nat)
    requires IsMatrix(w, n, n) && IsSymmetric(w)
    requires r0 <= r1 <= n && c0 <= c1 <= n
    ensures BlockSum(w, n, n, r0, r1, c0, c1) == BlockSum(w, n, n, c0, c1, r0, r1)
  {
    var b := Block(w, n, n, r0, r1, c0, c1);
    var bt := Block(w, n, n, c0, c1, r0, r1);
    var colSums := seq(c1 - c0, j requires 0 <= j < c1 - c0 => Sum(Column(b, r1 - r0, c1 - c0, j)));
    var mirrorRows := seq(c1 - c0, j requires 0 <= j < c1 - c0 => Sum(bt[j]));
    forall j | 0 <= j < c1 - c0
      ensures mirrorRows[j] == colSums[j]
    {
      assert bt[j] == Column(b, r1 - r0, c1 - c0, j);
    }
    assert mirrorRows == colSums;
    SumSwap(b, r1 - r0, c1 - c0);
  }

  lemma WeightedSymmetric(mat: Matrix, coeffs: Vector)
    requires IsMatrix(mat, |coeffs|, |coeffs|) && IsSymmetric(mat)
    ensures IsSymmetric(Weighted(mat, coeffs))
  {
    var w := Weighted(mat, coeffs);
    forall i, j | 0 <= i < |coeffs| && 0 <= j < |coeffs|
      ensures w[i][j] == w[j][i]
    {
      assert coeffs[j] * coeffs[i] == coeffs[i] * coeffs[j];
    }
  }

  /** Contracting a symmetric primitive matrix gives a symmetric matrix. */
  lemma ContractSymmetric(mat: Matrix, coeffs: Vector, nelmts: NElmts)
    requires IsMatrix(mat, |coeffs|, |coeffs|) && IsSymmetric(mat)
    requires nelmts.Uniform? ==> nelmts.size > 0 && |coeffs| % nelmts.size == 0
    requires Contract(mat, coeffs, nelmts).Success?
    ensures
      var c := Contract(mat, coeffs, nelmts).value;
      IsMatrix(c, |c|, |c|) && IsSymmetric(c)
  {
    var g, n := Groups(|coeffs|, nelmts), |coeffs|;
    ContractSucceeds(mat, coeffs, nelmts);
    var c := Contract(mat, coeffs, nelmts).value;
    var w := Weighted(mat, coeffs);
    WeightedSymmetric(mat, coeffs);
    forall p, q | 0 <= p < |c| && 0 <= q < |c|
      ensures c[p][q] == c[q][p]
    {
      ContractIsBlockSum(mat, coeffs, nelmts, p, q);
      ContractIsBlockSum(mat, coeffs, nelmts, q, p);
      BlockSumMirror(w, n, Start(g, p), Start(g, p + 1), Start(g, q), Start(g, q + 1));
    }
  }

  /** Both ragged steps as written with sizes [0, 2] on a 2 x 2 matrix. */
  lemma StepsAsWrittenLeadingEmpty(w: Matrix)
    requires IsMatrix(w, 2, 2)
    ensures IndicesInRange(2, LastIndices([0, 2]))
    ensures GroupRowsAsWritten(w, 2, 2, [0, 2]) == [[w[0][0] + w[1][0], w[0][1] + w[1][1]], [0.0, 0.0]]
    ensures GroupColsAsWritten(w, 2, 2, [0, 2]) == [[w[0][0] + w[0][1], 0.0], [w[1][0] + w[1][1], 0.0]]
  {
    var sizes: seq<nat> := [0, 2];
    var c0, c1 := Column(w, 2, 2, 0), Column(w, 2, 2, 1);
    assert c0 == [w[0][0], w[1][0]] && c1 == [w[0][1], w[1][1]];
    LeadingEmptyGroupMisplaced(c0);
    LeadingEmptyGroupMisplaced(c1);
    var r := GroupRowsAsWritten(w, 2, 2, sizes);
    assert r[0][0] == GroupSumsAsWritten(c0, sizes)[0] && r[0][1] == GroupSumsAsWritten(c1, sizes)[0];
    assert r[1][0] == GroupSumsAsWritten(c0, sizes)[1] && r[1][1] == GroupSumsAsWritten(c1, sizes)[1];
    assert r[0] == [w[0][0] + w[1][0], w[0][1] + w[1][1]] && r[1] == [0.0, 0.0];
    LeadingEmptyGroupMisplaced(w[0]);
    LeadingEmptyGroupMisplaced(w[1]);
    var c := GroupColsAsWritten(w, 2, 2, sizes);
    assert c[0] == GroupSumsAsWritten(w[0], sizes) && c[1] == GroupSumsAsWritten(w[1], sizes);
  }

  /** Both corrected ragged steps with sizes [0, 2] on a 2 x 2 matrix. */
  lemma StepsLeadingEmpty(w: Matrix)
    requires IsMatrix(w, 2, 2)
    ensures Total([0, 2]) == 2
    ensures GroupRows(w, 2, 2, [0, 2]) == [[0.0, 0.0], [w[0][0] + w[1][0], w[0][1] + w[1][1]]]
    ensures GroupCols(w, 2, 2, [0, 2]) == [[0.0, w[0][0] + w[0][1]], [0.0, w[1][0] + w[1][1]]]
  {
    var sizes: seq<nat> := [0, 2];
    assert Start(sizes, 1) == 0;
    var c0, c1 := Column(w, 2, 2, 0), Column(w, 2, 2, 1);
    assert c0 == [w[0][0], w[1][0]] && c1 == [w[0][1], w[1][1]];
    LeadingEmptyGroupMisplaced(c0);
    LeadingEmptyGroupMisplaced(c1);
    var r := GroupRows(w, 2, 2, sizes);
    assert r[0][0] == GroupSums(c0, sizes)[0] && r[0][1] == GroupSums(c1, sizes)[0];
    assert r[1][0] == GroupSums(c0, sizes)[1] && r[1][1] == GroupSums(c1, sizes)[1];
    assert r[0] == [0.0, 0.0] && r[1] == [w[0][0] + w[1][0], w[0][1] + w[1][1]];
    LeadingEmptyGroupMisplaced(w[0]);
    LeadingEmptyGroupMisplaced(w[1]);
    var c := GroupCols(w, 2, 2, sizes);
    assert c[0] == GroupSums(w[0], sizes) && c[1] == GroupSums(w[1], sizes);
  }

  /** `_contract` as written with sizes [0, 2]: the whole weighted sum lands
      on the empty basis function 0. */
  lemma ContractAsWrittenLeadingEmpty(mat: Matrix, coeffs: Vector)
    requires |coeffs| == 2 && IsMatrix(mat, 2, 2)
    ensures
      var w := Weighted(mat, coeffs);
      var total := (w[0][0] + w[1][0]) + (w[0][1] + w[1][1]);
      ContractAsWritten(mat, coeffs, Ragged([0, 2])) == Success([[total, 0.0], [0.0, 0.0]])
  {
    var w := Weighted(mat, coeffs);
    StepsAsWrittenLeadingEmpty(w);
    StepsAsWrittenLeadingEmpty(GroupRowsAsWritten(w, 2, 2, [0, 2]));
  }

  /** The corrected contraction with sizes [0, 2]: basis function 0 is empty
      and basis function 1 carries the whole weighted sum. */
  lemma ContractLeadingEmpty(mat: Matrix, coeffs: Vector)
    requires |coeffs| == 2 && IsMatrix(mat, 2, 2)
    ensures
      var w := Weighted(mat, coeffs);
      var total := (w[0][0] + w[1][0]) + (w[0][1] + w[1][1]);
      Contract(mat, coeffs, Ragged([0, 2])) == Success([[0.0, 0.0], [0.0, total]])
  {
    var w := Weighted(mat, coeffs);
    StepsLeadingEmpty(w);
    StepsLeadingEmpty(GroupRows(w, 2, 2, [0, 2]));
  }

  // ---------------------------------------------------------------------
  // Basis values: one row per primitive, one column per grid point.

  /** `basis_all * coeffs.unsqueeze(-1)`: each primitive's values times its coefficient. */
  function ScaleRows(b: Matrix, coeffs: Vector, cols: nat): (s: Matrix)
    requires IsMatrix(b, |coeffs|, cols)
    ensures IsMatrix(s, |coeffs|, cols)
  {
    seq(|coeffs|, i requires 0 <= i < |coeffs| =>
      seq(cols, r requires 0 <= r < cols => b[i][r] * coeffs[i]))
  }

  /** The uniform basis branch: `view(nb, ne, nr).sum(dim=1)`. */
  function GroupRowsUniform(b: Matrix, nb: nat, ne: nat, cols: nat): (c: Matrix)
    requires IsMatrix(b, nb * ne, cols)
    ensures IsMatrix(c, nb, cols)
  {
    seq(nb, p requires 0 <= p < nb =>
      seq(cols, r requires 0 <= r < cols =>
        Sum(seq(ne, i requires 0 <= i < ne => BlockIndex(p, i, nb, ne); b[p * ne + i][r]))))
  }

  /** The basis contraction as written. */
  function ContractBasisAsWritten(basisAll: Matrix, coeffs: Vector, nr: nat, nelmts: NElmts): (r: Result<Matrix, Exception>)
    requires IsMatrix(basisAll, |coeffs|, nr)
    requires nelmts.Uniform? ==> nelmts.size > 0 && |coeffs| % nelmts.size == 0
    ensures r.Failure? ==> r.error == IndexError && nelmts.Ragged?
  {
    var n := |coeffs|;
    var b := ScaleRows(basisAll, coeffs, nr);
    match nelmts
    case Uniform(ne) =>
      UniformSplit(n, ne);
      Success(GroupRowsUniform(b, n / ne, ne, nr))
    case Ragged(sizes) =>
      if IndicesInRange(n, LastIndices(sizes)) then Success(GroupRowsAsWritten(b, n, nr, sizes))
      else Failure(IndexError)
  }

  /** The basis contraction with the corrected ragged branch; the rest of the
      model uses this. */
  function ContractBasis(basisAll: Matrix, coeffs: Vector, nr: nat, nelmts: NElmts): (r: Result<Matrix, Exception>)
    requires IsMatrix(basisAll, |coeffs|, nr)
    requires nelmts.Uniform? ==> nelmts.size > 0 && |coeffs| % nelmts.size == 0
    ensures r.Failure? ==> r.error == IndexError && nelmts.Ragged?
  {
    var n := |coeffs|;
    var b := ScaleRows(basisAll, coeffs, nr);
    match nelmts
    case Uniform(ne) =>
      UniformSplit(n, ne);
      Success(GroupRowsUniform(b, n / ne, ne, nr))
    case Ragged(sizes) =>
      if Total(sizes) <= n then Success(GroupRows(b, n, nr, sizes))
      else Failure(IndexError)
  }

  /** The basis contraction fails exactly when the groups need more
      primitives than there are, and otherwise has one row per group. */
  lemma ContractBasisSucceeds(basisAll: Matrix, coeffs: Vector, nr: nat, nelmts: NElmts)
    requires IsMatrix(basisAll, |coeffs|, nr)
    requires nelmts.Uniform? ==> nelmts.size > 0 && |coeffs| % nelmts.size == 0
    ensures ContractBasis(basisAll, coeffs, nr, nelmts).Success? <==> Total(Groups(|coeffs|, nelmts)) <= |coeffs|
    ensures ContractBasis(basisAll, coeffs, nr, nelmts).Failure? ==> ContractBasis(basisAll, coeffs, nr, nelmts).error == IndexError
    ensures ContractBasis(basisAll, coeffs, nr, nelmts).Success? ==>
      IsMatrix(ContractBasis(basisAll, coeffs, nr, nelmts).value, |Groups(|coeffs|, nelmts)|, nr)
  {
    if nelmts.Uniform? {
      var ne := nelmts.size;
      UniformSplit(|coeffs|, ne);
      StartUniform(ne, |coeffs| / ne, |coeffs| / ne);
    }
  }

  /** The value of basis function `p` at grid point `r` is the sum over its
      primitives of coefficient times primitive value. */
  lemma ContractBasisIsGroupSum(basisAll: Matrix, coeffs: Vector, nr: nat, nelmts: NElmts, p: nat, r: nat)
    requires IsMatrix(basisAll, |coeffs|, nr)
    requires nelmts.Uniform? ==> nelmts.size > 0 && |coeffs| % nelmts.size == 0
    requires ContractBasis(basisAll, coeffs, nr, nelmts).Success?
    requires p < |Groups(|coeffs|, nelmts)| && r < nr
    ensures
      var g, n := Groups(|coeffs|, nelmts), |coeffs|;
      Start(g, p) <= Start(g, p + 1) <= n &&
      IsMatrix(ContractBasis(basisAll, coeffs, nr, nelmts).value, |g|, nr) &&
      ContractBasis(basisAll, coeffs, nr, nelmts).value[p][r]
        == Sum(Column(ScaleRows(basisAll, coeffs, nr), n, nr, r)[Start(g, p)..Start(g, p + 1)])
  {
    var g, n := Groups(|coeffs|, nelmts), |coeffs|;
    ContractBasisSucceeds(basisAll, coeffs, nr, nelmts);
    var b := ScaleRows(basisAll, coeffs, nr);
    match nelmts
    case Uniform(ne) =>
      var nb := n / ne;
      UniformSplit(n, ne);
      StartUniform(ne, nb, p);
      StartUniform(ne, nb, p + 1);
      assert (p + 1) * ne == p * ne + ne;
      BlockIndex(p, 0, nb, ne);
      var col := Column(b, n, nr, r);
      assert col[p * ne..p * ne + ne]
          == seq(ne, i requires 0 <= i < ne => BlockIndex(p, i, nb, ne); b[p * ne + i][r]);
    case Ragged(sizes) =>
      GroupRowsCell(b, n, nr, sizes, p, r);
  }

  /** The basis contraction as written agrees with the corrected version,
      errors included, whenever the first group is non-empty. */
  lemma ContractBasisAsWrittenAgrees(basisAll: Matrix, coeffs: Vector, nr: nat, nelmts: NElmts)
    requires IsMatrix(basisAll, |coeffs|, nr)
    requires nelmts.Uniform? ==> nelmts.size > 0 && |coeffs| % nelmts.size == 0
    requires nelmts.Ragged? && |nelmts.sizes| > 0 ==> nelmts.sizes[0] > 0
    ensures ContractBasisAsWritten(basisAll, coeffs, nr, nelmts) == ContractBasis(basisAll, coeffs, nr, nelmts)
  {
    if nelmts.Ragged? {
      var n, sizes := |coeffs|, nelmts.sizes;
      AsWrittenIndicesInRange(n, sizes);
      if Total(sizes) <= n {
        GroupRowsAgree(ScaleRows(basisAll, coeffs, nr), n, nr, sizes);
      }
    }
  }
}
