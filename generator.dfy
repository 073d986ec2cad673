/** The Hamiltonian generator for contracted Gaussians
    (hmolcgauss_gen.py, `HamiltonMoleculeCGaussGenerator`): sizing,
    normalization and contraction in the constructor, then the Hamiltonian,
    the density map and the parameter names.

    What the source obtains from code outside this model arrives as inputs:
    the primitive overlap and kinetic matrices (compiled routines), the
    values of the primitives at the grid points and the grid's volume
    elements (exponentials and powers on the grid), the Boys function, the
    E coefficients and 1/sqrt. */
module Generator {
  import opened Wrappers
  import opened Tensors
  import opened Keys
  import opened Hermite
  import opened Integrals
  import opened Contraction

  /** The reciprocal square root `1 / torch.sqrt(x)`. */
  type InvSqrtFn = real -> real

  /** The constructor's arguments together with the quantities it obtains
      from code outside this model. */
  datatype Inputs = Inputs(
    ijks: seq<Powers>,
    centres: Matrix,        // (nelmtstot, ndim)
    ndim: nat,
    alphas: seq<real>,
    coeffs: Vector,
    nelmts: NElmts,
    atompos: seq<Vec3>,
    atomzs: Vector,
    olpElmts: Matrix,       // get_overlap of the primitives
    kinElmts: Matrix,       // get_kinetics of the primitives
    basisAll: Matrix,       // primitive values at the grid points, (nelmtstot, nr)
    nr: nat,
    dvolume: Vector,        // grid volume elements, (nr,)
    boys: BoysFn,
    ecoeff: EcoeffFn,
    invSqrt: InvSqrtFn,
    normalizeElmts: bool)

  /** The shapes the source's tensors have: one row per primitive throughout. */
  ghost predicate Shaped(inp: Inputs)
  {
    var n := |inp.coeffs|;
    && |inp.ijks| == n && |inp.alphas| == n
    && IsMatrix(inp.centres, n, inp.ndim)
    && PairSumsNonZero(inp.alphas)
    && IsMatrix(inp.olpElmts, n, n) && IsMatrix(inp.kinElmts, n, n)
    && IsMatrix(inp.basisAll, n, inp.nr) && |inp.dvolume| == inp.nr
  }

  // ---------------------------------------------------------------------
  // Sizing

  /** `__init__`'s sizing: the number of basis functions, or the exception.
      `ndim` is checked first; `nelmtstot % nelmts` divides by zero when
      `nelmts` is 0. Ragged sizes are not checked against `nelmtstot`.
      Sizing succeeds exactly for three-dimensional centres and, with a
      uniform size, a non-zero divisor of the primitive count; the basis
      size is then the number of groups, which for a uniform size cover
      the primitives exactly. */
  function Sizing(nelmtstot: nat, ndim: nat, nelmts: NElmts): (r: Result<nat, Exception>)
    ensures r.Success? <==> ndim == 3 && (nelmts.Uniform? ==> nelmts.size > 0 && nelmtstot % nelmts.size == 0)
    ensures ndim != 3 ==> r == Failure(AssertionError)
    ensures ndim == 3 && nelmts == Uniform(0) ==> r == Failure(ZeroDivisionError)
    ensures ndim == 3 && nelmts.Uniform? && nelmts.size > 0 && nelmtstot % nelmts.size != 0 ==> r == Failure(AssertionError)
    ensures r.Failure? ==> r.error in {AssertionError, ZeroDivisionError}
    ensures r.Success? ==>
      && r.value == |Groups(nelmtstot, nelmts)|
      && (nelmts.Uniform? ==> r.value * nelmts.size == nelmtstot)
  {
    if ndim != 3 then Failure(AssertionError)
    else match nelmts
      case Ragged(sizes) => Success(|sizes|)
      case Uniform(ne) =>
        if ne == 0 then Failure(ZeroDivisionError)
        else if nelmtstot % ne != 0 then Failure(AssertionError)
        else UniformSplit(nelmtstot, ne); Success(nelmtstot / ne)
  }

  /** The leading dimension of `get_coulomb() * atomzs.unsqueeze(-1).unsqueeze(-1)`:
      torch broadcasts the atoms against the charges when their numbers are
      equal or either is 1, and raises RuntimeError otherwise. */
  function ChargeRows(natoms: nat, ncharges: nat): (k: Option<nat>)
    ensures k.Some? <==> natoms == ncharges || natoms == 1 || ncharges == 1
    ensures k.Some? ==> (k.value == natoms || natoms == 1) && (k.value == ncharges || ncharges == 1)
  {
    if natoms == ncharges || ncharges == 1 then Some(natoms)
    else if natoms == 1 then Some(ncharges)
    else None
  }

  /** The exception `__init__` raises, if any, in the order the source meets
      them: a sizing failure; a RuntimeError from `ijk_left.max()` in
      `Ecoeff.__init__` when there are no primitives; a RuntimeError when the
      charges do not broadcast against the atoms; an IndexError when ragged
      groups need more primitives than there are. */
  function InitError(inp: Inputs): (e: Option<Exception>)
    ensures var sizing := Sizing(|inp.coeffs|, inp.ndim, inp.nelmts);
      && (sizing.Failure? ==> e == Some(sizing.error))
      && (sizing.Success? && |inp.coeffs| == 0 ==> e == Some(RuntimeError))
      && (sizing.Success? && ChargeRows(|inp.atompos|, |inp.atomzs|).None? ==> e == Some(RuntimeError))
      && (e.None? <==> sizing.Success? && |inp.coeffs| > 0 && ChargeRows(|inp.atompos|, |inp.atomzs|).Some?
                       && Total(Groups(|inp.coeffs|, inp.nelmts)) <= |inp.coeffs|)
      && (e.Some? ==> e.value in {AssertionError, ZeroDivisionError, RuntimeError, IndexError})
  {
    var n := |inp.coeffs|;
    var sizing := Sizing(n, inp.ndim, inp.nelmts);
    if sizing.Failure? then Some(sizing.error)
    else if n == 0 then Some(RuntimeError)
    else if ChargeRows(|inp.atompos|, |inp.atomzs|).None? then Some(RuntimeError)
    else if Total(Groups(n, inp.nelmts)) > n then Some(IndexError)
    else None
  }

  /** Once `Ecoeff.__init__` has passed there is at least one primitive, and
      then the ragged bound `InitError` checks fails exactly when `_contract`
      as written indexes out of range: the IndexError is the source's. */
  lemma InitErrorIndexAsWritten(inp: Inputs)
    requires Sizing(|inp.coeffs|, inp.ndim, inp.nelmts).Success? && |inp.coeffs| > 0
    requires ChargeRows(|inp.atompos|, |inp.atomzs|).Some? && inp.nelmts.Ragged?
    ensures InitError(inp) == Some(IndexError) <==> !IndicesInRange(|inp.coeffs|, LastIndices(inp.nelmts.sizes))
    ensures InitError(inp).None? <==> IndicesInRange(|inp.coeffs|, LastIndices(inp.nelmts.sizes))
  {
    IndicesInRangeWithEntries(|inp.coeffs|, inp.nelmts.sizes);
  }

  // ---------------------------------------------------------------------
  // The steps of `__init__` as functions of the inputs

  /** The centres as points, once they are known to be three-dimensional. */
  function Centres3(inp: Inputs): (cs: seq<Vec3>)
    requires Shaped(inp) && inp.ndim == 3
    ensures |cs| == |inp.coeffs|
  {
    seq(|inp.coeffs|, i requires 0 <= i < |inp.coeffs| =>
      Vec3(inp.centres[i][0], inp.centres[i][1], inp.centres[i][2]))
  }

  /** The primitives' pair data, as `Ecoeff.__init__` builds it. */
  function Pairs(inp: Inputs): (d: PairData)
    requires Shaped(inp) && inp.ndim == 3
    ensures WellFormed(d) && d.nprim == |inp.coeffs| && d.natoms == |inp.atompos|
  {
    MakePairData(inp.ijks, Centres3(inp), inp.alphas, inp.atompos, inp.boys, inp.ecoeff)
  }

  /** `coeffs * (1 / sqrt(diag(olp_elmts)))` when normalizing the elements. */
  function ElementCoeffs(inp: Inputs): (c: Vector)
    requires Shaped(inp)
    ensures |c| == |inp.coeffs|
  {
    if inp.normalizeElmts then
      seq(|inp.coeffs|, i requires 0 <= i < |inp.coeffs| => inp.coeffs[i] * inp.invSqrt(inp.olpElmts[i][i]))
    else inp.coeffs
  }

  /** `get_coulomb() * atomzs.unsqueeze(-1).unsqueeze(-1)`: each atom's
      matrix times its charge, a single atom or a single charge broadcast
      over the other. */
  function ChargeWeighted(coul: Tensor3, natoms: nat, atomzs: Vector, n: nat): (x: Tensor3)
    requires IsTensor3(coul, natoms, n, n) && ChargeRows(natoms, |atomzs|).Some?
    ensures IsTensor3(x, ChargeRows(natoms, |atomzs|).value, n, n)
  {
    var k := ChargeRows(natoms, |atomzs|).value;
    seq(k, at requires 0 <= at < k =>
      var ca := if natoms == 1 then 0 else at;
      var za := if |atomzs| == 1 then 0 else at;
      seq(n, a requires 0 <= a < n => seq(n, b requires 0 <= b < n => coul[ca][a][b] * atomzs[za])))
  }

  /** `kin + coul.sum(dim=0)`: kinetic plus the attraction of every nucleus. */
  function KinPlusCoulomb(kin: Matrix, coul: Tensor3, natoms: nat, n: nat): (m: Matrix)
    requires IsMatrix(kin, n, n) && IsTensor3(coul, natoms, n, n)
    ensures IsMatrix(m, n, n)
  {
    seq(n, a requires 0 <= a < n => seq(n, b requires 0 <= b < n =>
      kin[a][b] + Sum(seq(natoms, at requires 0 <= at < natoms => coul[at][a][b]))))
  }

  function KinCoulElmts(inp: Inputs): (m: Matrix)
    requires Shaped(inp) && inp.ndim == 3 && ChargeRows(|inp.atompos|, |inp.atomzs|).Some?
    ensures IsMatrix(m, |inp.coeffs|, |inp.coeffs|)
  {
    var d := Pairs(inp);
    var k := ChargeRows(d.natoms, |inp.atomzs|).value;
    KinPlusCoulomb(inp.kinElmts, ChargeWeighted(CoulombSpec(d), d.natoms, inp.atomzs, d.nprim), k, d.nprim)
  }

  /** `1 / sqrt(diag(m))`. */
  function NormFactors(m: Matrix, invSqrt: InvSqrtFn): (norm: Vector)
    requires IsMatrix(m, |m|, |m|)
    ensures |norm| == |m|
  {
    seq(|m|, p requires 0 <= p < |m| => invSqrt(m[p][p]))
  }

  /** The normalization line 104 evidently intends: each entry times both
      norms, the outer product `norm.unsqueeze(-1) * norm.unsqueeze(0)`,
      matching the basis scaled by its own norm. The rest of the model uses
      this one. */
  function ScaleByNorms(m: Matrix, norm: Vector): (s: Matrix)
    requires IsMatrix(m, |norm|, |norm|)
    ensures IsMatrix(s, |norm|, |norm|)
  {
    seq(|norm|, p requires 0 <= p < |norm| =>
      seq(|norm|, q requires 0 <= q < |norm| => m[p][q] * (norm[p] * norm[q])))
  }

  /** `m * (norm.unsqueeze(-1) * norm.unsqueeze(1))` as written: `norm` is
      one-dimensional, so both factors are the column (nbasis, 1) and row p
      is scaled by the square of its own norm. */
  function ScaleRowsByNormSq(m: Matrix, norm: Vector): (s: Matrix)
    requires IsMatrix(m, |norm|, |norm|)
    ensures IsMatrix(s, |norm|, |norm|)
  {
    seq(|norm|, p requires 0 <= p < |norm| =>
      seq(|norm|, q requires 0 <= q < |norm| => m[p][q] * (norm[p] * norm[p])))
  }

  /** `(m + m.transpose(-2, -1)) * 0.5`. */
  function Symmetrize(m: Matrix): (s: Matrix)
    requires IsMatrix(m, |m|, |m|)
    ensures IsMatrix(s, |m|, |m|)
  {
    seq(|m|, p requires 0 <= p < |m| =>
      seq(|m|, q requires 0 <= q < |m| => (m[p][q] + m[q][p]) * 0.5))
  }

  /** `basis * norm.unsqueeze(-1)`: each basis function scaled by its norm. */
  function ScaleBasis(b: Matrix, norm: Vector, nr: nat): (s: Matrix)
    requires IsMatrix(b, |norm|, nr)
    ensures IsMatrix(s, |norm|, nr)
  {
    seq(|norm|, p requires 0 <= p < |norm| => seq(nr, r requires 0 <= r < nr => b[p][r] * norm[p]))
  }

  /** `basis * dvolume`: each grid value times its volume element. */
  function TimesVolume(b: Matrix, dvolume: Vector, rows: nat): (s: Matrix)
    requires IsMatrix(b, rows, |dvolume|)
    ensures IsMatrix(s, rows, |dvolume|)
  {
    seq(rows, p requires 0 <= p < rows => seq(|dvolume|, r requires 0 <= r < |dvolume| => b[p][r] * dvolume[r]))
  }

  /** The contracted kinetic-plus-Coulomb and overlap matrices, before normalization. */
  function ContractedKinCoul(inp: Inputs): (m: Matrix)
    requires Shaped(inp) && InitError(inp).None?
    ensures IsMatrix(m, |Groups(|inp.coeffs|, inp.nelmts)|, |Groups(|inp.coeffs|, inp.nelmts)|)
  {
    ContractSucceeds(KinCoulElmts(inp), ElementCoeffs(inp), inp.nelmts);
    Contract(KinCoulElmts(inp), ElementCoeffs(inp), inp.nelmts).value
  }

  function ContractedOverlap(inp: Inputs): (m: Matrix)
    requires Shaped(inp) && InitError(inp).None?
    ensures IsMatrix(m, |Groups(|inp.coeffs|, inp.nelmts)|, |Groups(|inp.coeffs|, inp.nelmts)|)
  {
    ContractSucceeds(inp.olpElmts, ElementCoeffs(inp), inp.nelmts);
    Contract(inp.olpElmts, ElementCoeffs(inp), inp.nelmts).value
  }

  function ContractedBasis(inp: Inputs): (m: Matrix)
    requires Shaped(inp) && InitError(inp).None?
    ensures IsMatrix(m, |Groups(|inp.coeffs|, inp.nelmts)|, inp.nr)
  {
    ContractBasisSucceeds(inp.basisAll, ElementCoeffs(inp), inp.nr, inp.nelmts);
    ContractBasis(inp.basisAll, ElementCoeffs(inp), inp.nr, inp.nelmts).value
  }

  /** The final state of `__init__`. */
  function KinCoulMat(inp: Inputs): (m: Matrix)
    requires Shaped(inp) && InitError(inp).None?
  {
    var olp := ContractedOverlap(inp);
    Symmetrize(ScaleByNorms(ContractedKinCoul(inp), NormFactors(olp, inp.invSqrt)))
  }

  function OlpMat(inp: Inputs): (m: Matrix)
    requires Shaped(inp) && InitError(inp).None?
  {
    var olp := ContractedOverlap(inp);
    Symmetrize(ScaleByNorms(olp, NormFactors(olp, inp.invSqrt)))
  }

  /** The overlap `__init__` stores as written, scaled row by row. */
  function OlpMatAsWritten(inp: Inputs): (m: Matrix)
    requires Shaped(inp) && InitError(inp).None?
  {
    var olp := ContractedOverlap(inp);
    Symmetrize(ScaleRowsByNormSq(olp, NormFactors(olp, inp.invSqrt)))
  }

  function Basis(inp: Inputs): (m: Matrix)
    requires Shaped(inp) && InitError(inp).None?
  {
    var olp := ContractedOverlap(inp);
    ScaleBasis(ContractedBasis(inp), NormFactors(olp, inp.invSqrt), inp.nr)
  }

  // ---------------------------------------------------------------------
  // What normalization and symmetrization achieve

  /** `invSqrt` is a reciprocal square root on the positive reals. */
  ghost predicate IsInvSqrt(invSqrt: InvSqrtFn)
  {
    forall x: real {:trigger invSqrt(x)} :: x > 0.0 ==> invSqrt(x) * invSqrt(x) * x == 1.0
  }

  /** The symmetrization yields a symmetric matrix and leaves a symmetric one unchanged. */
  lemma SymmetrizeSymmetric(m: Matrix)
    requires IsMatrix(m, |m|, |m|)
    ensures IsSymmetric(Symmetrize(m))
    ensures IsSymmetric(m) ==> Symmetrize(m) == m
  {
    var s := Symmetrize(m);
    if IsSymmetric(m) {
      forall p | 0 <= p < |m| ensures s[p] == m[p] {
        assert forall q :: 0 <= q < |m| ==> s[p][q] == m[p][q];
      }
    }
  }

  /** Scaling by norms keeps a symmetric matrix symmetric. */
  lemma ScaleByNormsSymmetric(m: Matrix, norm: Vector)
    requires IsMatrix(m, |norm|, |norm|) && IsSymmetric(m)
    ensures IsSymmetric(ScaleByNorms(m, norm))
  {
    var s := ScaleByNorms(m, norm);
    forall p, q | 0 <= p < |norm| && 0 <= q < |norm| ensures s[p][q] == s[q][p] {
      assert norm[p] * norm[q] == norm[q] * norm[p];
    }
  }

  /** Dividing by the square roots of the diagonal gives a unit diagonal
      whenever the diagonal is positive. */
  lemma NormalizedUnitDiagonal(m: Matrix, invSqrt: InvSqrtFn)
    requires IsMatrix(m, |m|, |m|) && IsInvSqrt(invSqrt)
    requires forall p :: 0 <= p < |m| ==> m[p][p] > 0.0
    ensures forall p :: 0 <= p < |m| ==> Symmetrize(ScaleByNorms(m, NormFactors(m, invSqrt)))[p][p] == 1.0
  {
    var norm := NormFactors(m, invSqrt);
    var s := ScaleByNorms(m, norm);
    forall p | 0 <= p < |m| ensures Symmetrize(s)[p][p] == 1.0 {
      var x := m[p][p];
      assert invSqrt(x) * invSqrt(x) * x == 1.0;
      assert s[p][p] == x * (invSqrt(x) * invSqrt(x));
    }
  }

  /** The contracted overlap has a unit diagonal once normalized, provided
      its diagonal was positive before. */
  lemma OlpMatUnitDiagonal(inp: Inputs)
    requires Shaped(inp) && InitError(inp).None? && IsInvSqrt(inp.invSqrt)
    requires forall p :: 0 <= p < |ContractedOverlap(inp)| ==> ContractedOverlap(inp)[p][p] > 0.0
    ensures forall p :: 0 <= p < |OlpMat(inp)| ==> OlpMat(inp)[p][p] == 1.0
  {
    NormalizedUnitDiagonal(ContractedOverlap(inp), inp.invSqrt);
  }

  /** Row scaling followed by symmetrization differs from the outer-product
      scaling of a symmetric matrix at (p, q) by exactly m[p][q] (n_p - n_q)^2 / 2,
      so the two agree wherever the two norms are equal. */
  lemma RowScalingDifference(m: Matrix, norm: Vector)
    requires IsMatrix(m, |norm|, |norm|) && IsSymmetric(m)
    ensures forall p, q :: 0 <= p < |norm| && 0 <= q < |norm| ==>
      Symmetrize(ScaleRowsByNormSq(m, norm))[p][q]
        == ScaleByNorms(m, norm)[p][q] + m[p][q] * ((norm[p] - norm[q]) * (norm[p] - norm[q])) * 0.5
    ensures forall p, q :: 0 <= p < |norm| && 0 <= q < |norm| && norm[p] == norm[q] ==>
      Symmetrize(ScaleRowsByNormSq(m, norm))[p][q] == ScaleByNorms(m, norm)[p][q]
  {
    var w, c := Symmetrize(ScaleRowsByNormSq(m, norm)), ScaleByNorms(m, norm);
    forall p, q | 0 <= p < |norm| && 0 <= q < |norm|
      ensures w[p][q] == c[p][q] + m[p][q] * ((norm[p] - norm[q]) * (norm[p] - norm[q])) * 0.5
    {
      var a, x, y := m[p][q], norm[p], norm[q];
      assert w[p][q] == (a * (x * x) + m[q][p] * (y * y)) * 0.5;
      assert m[q][p] == a;
    }
  }

  /** Row scaling leaves the same diagonal as the outer product, so the
      overlap as written also has a unit diagonal. */
  lemma RowScalingUnitDiagonal(m: Matrix, invSqrt: InvSqrtFn)
    requires IsMatrix(m, |m|, |m|) && IsInvSqrt(invSqrt)
    requires forall p :: 0 <= p < |m| ==> m[p][p] > 0.0
    ensures forall p :: 0 <= p < |m| ==> Symmetrize(ScaleRowsByNormSq(m, NormFactors(m, invSqrt)))[p][p] == 1.0
  {
    var norm := NormFactors(m, invSqrt);
    var s := ScaleRowsByNormSq(m, norm);
    forall p | 0 <= p < |m| ensures Symmetrize(s)[p][p] == 1.0 {
      var x := m[p][p];
      assert invSqrt(x) * invSqrt(x) * x == 1.0;
      assert s[p][p] == x * (invSqrt(x) * invSqrt(x));
    }
  }

  lemma OlpMatAsWrittenUnitDiagonal(inp: Inputs)
    requires Shaped(inp) && InitError(inp).None? && IsInvSqrt(inp.invSqrt)
    requires forall p :: 0 <= p < |ContractedOverlap(inp)| ==> ContractedOverlap(inp)[p][p] > 0.0
    ensures forall p :: 0 <= p < |OlpMatAsWritten(inp)| ==> OlpMatAsWritten(inp)[p][p] == 1.0
  {
    RowScalingUnitDiagonal(ContractedOverlap(inp), inp.invSqrt);
  }

  /** The contracted overlap [[1, 1], [1, 4]] (uniform groups of one, with
      coefficients 1 and 2 and primitive overlap [[1, 0.5], [0.5, 1]]) has
      norms 1 and 0.5: as written its off-diagonal entry becomes 0.625, where
      the outer product gives 0.5. */
  lemma RowScalingMisnormalizes(invSqrt: InvSqrtFn)
    requires invSqrt(1.0) == 1.0 && invSqrt(4.0) == 0.5
    ensures NormFactors([[1.0, 1.0], [1.0, 4.0]], invSqrt) == [1.0, 0.5]
    ensures Symmetrize(ScaleRowsByNormSq([[1.0, 1.0], [1.0, 4.0]], [1.0, 0.5]))[0][1] == 0.625
    ensures ScaleByNorms([[1.0, 1.0], [1.0, 4.0]], [1.0, 0.5])[0][1] == 0.5
  {
    var m: Matrix := [[1.0, 1.0], [1.0, 4.0]];
    assert NormFactors(m, invSqrt) == [invSqrt(m[0][0]), invSqrt(m[1][1])];
    var s := ScaleRowsByNormSq(m, [1.0, 0.5]);
    assert s[0][1] == 1.0 && s[1][0] == 0.25;
  }

  /** With a symmetric primitive overlap the final symmetrization of the
      overlap changes nothing: the overlap is the normalized contraction. */
  lemma OlpMatIsNormalizedContraction(inp: Inputs)
    requires Shaped(inp) && InitError(inp).None? && IsSymmetric(inp.olpElmts)
    ensures
      var olp := ContractedOverlap(inp);
      OlpMat(inp) == ScaleByNorms(olp, NormFactors(olp, inp.invSqrt))
  {
    var olp := ContractedOverlap(inp);
    ContractSucceeds(inp.olpElmts, ElementCoeffs(inp), inp.nelmts);
    ContractSymmetric(inp.olpElmts, ElementCoeffs(inp), inp.nelmts);
    ScaleByNormsSymmetric(olp, NormFactors(olp, inp.invSqrt));
    SymmetrizeSymmetric(ScaleByNorms(olp, NormFactors(olp, inp.invSqrt)));
  }

  // ---------------------------------------------------------------------
  // Hamiltonian and density

  function AddMatrices(a: Matrix, b: Matrix, rows: nat, cols: nat): (m: Matrix)
    requires IsMatrix(a, rows, cols) && IsMatrix(b, rows, cols)
    ensures IsMatrix(m, rows, cols)
    ensures forall i, j :: 0 <= i < rows && 0 <= j < cols ==> m[i][j] == a[i][j] + b[i][j]
  {
    seq(rows, i requires 0 <= i < rows => seq(cols, j requires 0 <= j < cols => a[i][j] + b[i][j]))
  }

  /** `einsum("...r,br,cr->...bc", vext, basis_dvolume, basis)`. */
  function ExtPotential(vext: Vector, basisDVolume: Matrix, basis: Matrix, nb: nat): (m: Matrix)
    requires IsMatrix(basisDVolume, nb, |vext|) && IsMatrix(basis, nb, |vext|)
    ensures IsMatrix(m, nb, nb)
  {
    seq(nb, b requires 0 <= b < nb => seq(nb, c requires 0 <= c < nb =>
      Sum(seq(|vext|, r requires 0 <= r < |vext| => vext[r] * basisDVolume[b][r] * basis[c][r]))))
  }

  /** The reference: the potential integrated against two basis functions,
      the integral being a sum over grid points weighted by volume. */
  function PotentialIntegral(vext: Vector, dvolume: Vector, basis: Matrix, nb: nat, b: nat, c: nat): real
    requires |dvolume| == |vext| && IsMatrix(basis, nb, |vext|) && b < nb && c < nb
  {
    Sum(seq(|vext|, r requires 0 <= r < |vext| => vext[r] * dvolume[r] * basis[b][r] * basis[c][r]))
  }

  lemma ExtPotentialIsIntegral(vext: Vector, dvolume: Vector, basis: Matrix, nb: nat, b: nat, c: nat)
    requires |dvolume| == |vext| && IsMatrix(basis, nb, |vext|) && b < nb && c < nb
    ensures ExtPotential(vext, TimesVolume(basis, dvolume, nb), basis, nb)[b][c] == PotentialIntegral(vext, dvolume, basis, nb, b, c)
    ensures PotentialIntegral(vext, dvolume, basis, nb, b, c) == PotentialIntegral(vext, dvolume, basis, nb, c, b)
  {
    var bdv := TimesVolume(basis, dvolume, nb);
    var n := |vext|;
    var e := seq(n, r requires 0 <= r < n => vext[r] * bdv[b][r] * basis[c][r]);
    var f := seq(n, r requires 0 <= r < n => vext[r] * dvolume[r] * basis[b][r] * basis[c][r]);
    var g := seq(n, r requires 0 <= r < n => vext[r] * dvolume[r] * basis[c][r] * basis[b][r]);
    forall r | 0 <= r < n ensures e[r] == f[r] && f[r] == g[r] {
      assert bdv[b][r] == basis[b][r] * dvolume[r];
      assert vext[r] * (basis[b][r] * dvolume[r]) * basis[c][r] == vext[r] * dvolume[r] * basis[b][r] * basis[c][r];
    }
    SumPointwiseEqual(e, f);
    SumPointwiseEqual(f, g);
  }

  /** `einsum("...jk,jr,kr->...r", dm, basis, basis)`: the density on the grid. */
  function Density(dm: Matrix, basis: Matrix, nb: nat, nr: nat): (dens: Vector)
    requires IsMatrix(dm, nb, nb) && IsMatrix(basis, nb, nr)
    ensures |dens| == nr
  {
    seq(nr, r requires 0 <= r < nr => Sum(seq(nb, j requires 0 <= j < nb =>
      Sum(seq(nb, k requires 0 <= k < nb => dm[j][k] * basis[j][r] * basis[k][r])))))
  }

  /** The density is linear in the density matrix. */
  lemma DensityLinear(dm1: Matrix, dm2: Matrix, basis: Matrix, nb: nat, nr: nat)
    requires IsMatrix(dm1, nb, nb) && IsMatrix(dm2, nb, nb) && IsMatrix(basis, nb, nr)
    ensures forall r :: 0 <= r < nr ==>
      Density(AddMatrices(dm1, dm2, nb, nb), basis, nb, nr)[r] == Density(dm1, basis, nb, nr)[r] + Density(dm2, basis, nb, nr)[r]
  {
    var dm := AddMatrices(dm1, dm2, nb, nb);
    forall r | 0 <= r < nr
      ensures Density(dm, basis, nb, nr)[r] == Density(dm1, basis, nb, nr)[r] + Density(dm2, basis, nb, nr)[r]
    {
      DensityLinearAt(dm1, dm2, basis, nb, nr, r);
    }
  }

  function DensityTerm(dm: Matrix, basis: Matrix, nb: nat, nr: nat, r: nat, j: nat): real
    requires IsMatrix(dm, nb, nb) && IsMatrix(basis, nb, nr) && r < nr && j < nb
  {
    Sum(seq(nb, k requires 0 <= k < nb => dm[j][k] * basis[j][r] * basis[k][r]))
  }

  lemma DensityAt(dm: Matrix, basis: Matrix, nb: nat, nr: nat, r: nat)
    requires IsMatrix(dm, nb, nb) && IsMatrix(basis, nb, nr) && r < nr
    ensures Density(dm, basis, nb, nr)[r] == Sum(seq(nb, j requires 0 <= j < nb => DensityTerm(dm, basis, nb, nr, r, j)))
  {
    var a := seq(nb, j requires 0 <= j < nb =>
      Sum(seq(nb, k requires 0 <= k < nb => dm[j][k] * basis[j][r] * basis[k][r])));
    var b := seq(nb, j requires 0 <= j < nb => DensityTerm(dm, basis, nb, nr, r, j));
    SumPointwiseEqual(a, b);
  }

  lemma DensityLinearAt(dm1: Matrix, dm2: Matrix, basis: Matrix, nb: nat, nr: nat, r: nat)
    requires IsMatrix(dm1, nb, nb) && IsMatrix(dm2, nb, nb) && IsMatrix(basis, nb, nr) && r < nr
    ensures Density(AddMatrices(dm1, dm2, nb, nb), basis, nb, nr)[r] == Density(dm1, basis, nb, nr)[r] + Density(dm2, basis, nb, nr)[r]
  {
    var dm := AddMatrices(dm1, dm2, nb, nb);
    var t := seq(nb, j requires 0 <= j < nb => DensityTerm(dm, basis, nb, nr, r, j));
    var t1 := seq(nb, j requires 0 <= j < nb => DensityTerm(dm1, basis, nb, nr, r, j));
    var t2 := seq(nb, j requires 0 <= j < nb => DensityTerm(dm2, basis, nb, nr, r, j));
    forall j | 0 <= j < nb ensures t[j] == t1[j] + t2[j] {
      var a := seq(nb, k requires 0 <= k < nb => dm[j][k] * basis[j][r] * basis[k][r]);
      var a1 := seq(nb, k requires 0 <= k < nb => dm1[j][k] * basis[j][r] * basis[k][r]);
      var a2 := seq(nb, k requires 0 <= k < nb => dm2[j][k] * basis[j][r] * basis[k][r]);
      forall k | 0 <= k < nb ensures a[k] == a1[k] + a2[k] {
        assert dm[j][k] == dm1[j][k] + dm2[j][k];
      }
      SumPointwiseAdd(a1, a2, a);
    }
    SumPointwiseAdd(t1, t2, t);
    DensityAt(dm, basis, nb, nr, r);
    DensityAt(dm1, basis, nb, nr, r);
    DensityAt(dm2, basis, nb, nr, r);
  }

  /** The density matrix `c cᵀ` of one orbital. */
  function Outer(c: Vector): (m: Matrix)
    ensures IsMatrix(m, |c|, |c|)
  {
    seq(|c|, j requires 0 <= j < |c| => seq(|c|, k requires 0 <= k < |c| => c[j] * c[k]))
  }

  /** The orbital `Σ_j c[j] basis[j][r]` at grid point r. */
  function Orbital(c: Vector, basis: Matrix, nr: nat, r: nat): real
    requires IsMatrix(basis, |c|, nr) && r < nr
  {
    Sum(seq(|c|, j requires 0 <= j < |c| => c[j] * basis[j][r]))
  }

  /** One row of the orbital's density: `phi[j]` times the orbital. */
  lemma OrbitalTerm(c: Vector, basis: Matrix, nr: nat, r: nat, j: nat)
    requires IsMatrix(basis, |c|, nr) && r < nr && j < |c|
    ensures DensityTerm(Outer(c), basis, |c|, nr, r, j) == c[j] * basis[j][r] * Orbital(c, basis, nr, r)
  {
    var nb := |c|;
    var dm := Outer(c);
    var phi := seq(nb, k requires 0 <= k < nb => c[k] * basis[k][r]);
    var a := seq(nb, k requires 0 <= k < nb => dm[j][k] * basis[j][r] * basis[k][r]);
    forall k | 0 <= k < nb ensures a[k] == (c[j] * basis[j][r]) * phi[k] {
      var x, y, u, v := c[j], c[k], basis[j][r], basis[k][r];
      assert dm[j][k] == x * y;
      assert x * y * u * v == (x * u) * (y * v);
    }
    SumScale(phi, c[j] * basis[j][r], a);
  }

  lemma OrbitalTermsSum(c: Vector, basis: Matrix, nr: nat, r: nat)
    requires IsMatrix(basis, |c|, nr) && r < nr
    ensures Sum(seq(|c|, j requires 0 <= j < |c| => DensityTerm(Outer(c), basis, |c|, nr, r, j)))
         == Orbital(c, basis, nr, r) * Orbital(c, basis, nr, r)
  {
    var nb := |c|;
    var phi := seq(nb, j requires 0 <= j < nb => c[j] * basis[j][r]);
    var o := Orbital(c, basis, nr, r);
    var t := seq(nb, j requires 0 <= j < nb => DensityTerm(Outer(c), basis, nb, nr, r, j));
    forall j | 0 <= j < nb ensures t[j] == o * phi[j] {
      OrbitalTerm(c, basis, nr, r, j);
    }
    SumScale(phi, o, t);
  }

  /** The density of one orbital is the orbital squared, so never negative. */
  lemma DensityOfOrbital(c: Vector, basis: Matrix, nr: nat, r: nat)
    requires IsMatrix(basis, |c|, nr) && r < nr
    ensures Density(Outer(c), basis, |c|, nr)[r] == Orbital(c, basis, nr, r) * Orbital(c, basis, nr, r)
    ensures Density(Outer(c), basis, |c|, nr)[r] >= 0.0
  {
    OrbitalTermsSum(c, basis, nr, r);
    DensityAt(Outer(c), basis, |c|, nr, r);
  }

  // ---------------------------------------------------------------------
  // The generator object

  class HamiltonGenerator {
    const nbasis: nat
    const nr: nat
    const nelmts: NElmts
    const dvolume: Vector
    const coulElmts: Tensor3
    const kinCoulElmts: Matrix
    const kinCoulMat: Matrix
    const olpMat: Matrix
    const basis: Matrix
    const basisDVolume: Matrix

    /** Shapes, symmetric matrices, and the volume-weighted basis matching the basis. */
    ghost predicate Valid()
    {
      && IsMatrix(kinCoulMat, nbasis, nbasis) && IsMatrix(olpMat, nbasis, nbasis)
      && IsSymmetric(kinCoulMat) && IsSymmetric(olpMat)
      && |dvolume| == nr && IsMatrix(basis, nbasis, nr)
      && basisDVolume == TimesVolume(basis, dvolume, nbasis)
    }

    /** `__init__` once its sizing and contraction checks have passed. */
    constructor (inp: Inputs)
      requires Shaped(inp) && InitError(inp).None?
      ensures Valid()
      ensures nbasis == Sizing(|inp.coeffs|, inp.ndim, inp.nelmts).value
      ensures nbasis == |Groups(|inp.coeffs|, inp.nelmts)|
      ensures nr == inp.nr && dvolume == inp.dvolume && nelmts == inp.nelmts
      ensures coulElmts == ChargeWeighted(CoulombSpec(Pairs(inp)), |inp.atompos|, inp.atomzs, |inp.coeffs|)
      ensures kinCoulElmts == KinCoulElmts(inp)
      ensures kinCoulMat == KinCoulMat(inp) && olpMat == OlpMat(inp) && basis == Basis(inp)
    {
      var n := |inp.coeffs|;
      var nb := Sizing(n, inp.ndim, inp.nelmts).value;
      var e := new Ecoeff(inp.ijks, Centres3(inp), inp.alphas, inp.atompos, inp.boys, inp.ecoeff);
      var coul := e.GetCoulomb();
      var coulZ := ChargeWeighted(coul, |inp.atompos|, inp.atomzs, n);
      var kinCoul := KinPlusCoulomb(inp.kinElmts, coulZ, ChargeRows(|inp.atompos|, |inp.atomzs|).value, n);
      var kc := ContractedKinCoul(inp);
      var olp := ContractedOverlap(inp);
      var norm := NormFactors(olp, inp.invSqrt);
      var kcNormed := Symmetrize(ScaleByNorms(kc, norm));
      var olpNormed := Symmetrize(ScaleByNorms(olp, norm));
      var b := ScaleBasis(ContractedBasis(inp), norm, inp.nr);
      SymmetrizeSymmetric(ScaleByNorms(kc, norm));
      SymmetrizeSymmetric(ScaleByNorms(olp, norm));
      nbasis := nb;
      nr := inp.nr;
      nelmts := inp.nelmts;
      dvolume := inp.dvolume;
      coulElmts := coulZ;
      kinCoulElmts := kinCoul;
      kinCoulMat := kcNormed;
      olpMat := olpNormed;
      basis := b;
      basisDVolume := TimesVolume(b, inp.dvolume, nb);
    }

    /** `get_hamiltonian`: the external potential on the grid plus the
        kinetic and Coulomb matrix, symmetrized. */
    function GetHamiltonian(vext: Vector): (h: Matrix)
      requires Valid() && |vext| == nr
      ensures IsMatrix(h, nbasis, nbasis) && IsSymmetric(h)
    {
      var m := AddMatrices(ExtPotential(vext, basisDVolume, basis, nbasis), kinCoulMat, nbasis, nbasis);
      SymmetrizeSymmetric(m);
      Symmetrize(m)
    }

    /** The symmetrization in `get_hamiltonian` changes nothing: each entry
        is the potential integrated against the two basis functions plus
        the kinetic and Coulomb entry. */
    lemma HamiltonianIsPotentialPlusKinCoul(vext: Vector, b: nat, c: nat)
      requires Valid() && |vext| == nr && b < nbasis && c < nbasis
      ensures GetHamiltonian(vext)[b][c] == PotentialIntegral(vext, dvolume, basis, nbasis, b, c) + kinCoulMat[b][c]
    {
      ExtPotentialIsIntegral(vext, dvolume, basis, nbasis, b, c);
      ExtPotentialIsIntegral(vext, dvolume, basis, nbasis, c, b);
    }

    /** `dm2dens`: the density of a density matrix on the grid. */
    function Dm2Dens(dm: Matrix): (dens: Vector)
      requires Valid() && IsMatrix(dm, nbasis, nbasis)
      ensures dens == Density(dm, basis, nbasis, nr)
      ensures |dens| == nr
      ensures forall r :: 0 <= r < nr ==>
        dens[r] == Sum(seq(nbasis, j requires 0 <= j < nbasis => DensityTerm(dm, basis, nbasis, nr, r, j)))
    {
      var d := Density(dm, basis, nbasis, nr);
      forall r | 0 <= r < nr
        ensures d[r] == Sum(seq(nbasis, j requires 0 <= j < nbasis => DensityTerm(dm, basis, nbasis, nr, r, j)))
      {
        DensityAt(dm, basis, nbasis, nr, r);
      }
      d
    }

    /** `getparamnames`: the fields each method reads, or KeyError for an
        unknown method. Every name is the prefix followed by a field. */
    function GetParamNames(methodName: string, prefix: string): (r: Result<seq<string>, Exception>)
      ensures r.Success? <==> methodName in ["get_hamiltonian", "get_overlap", "dm2dens"]
      ensures r.Failure? ==> r.error == KeyError
      ensures r.Success? ==> |r.value| > 0 && forall name :: name in r.value ==>
        |name| > |prefix| && name[..|prefix|] == prefix
        && name[|prefix|..] in ["basis_dvolume", "basis", "kin_coul_mat", "olp_mat"]
    {
      if methodName == "get_hamiltonian" then
        Success([prefix + "basis_dvolume", prefix + "basis", prefix + "kin_coul_mat"])
      else if methodName == "get_overlap" then Success([prefix + "olp_mat"])
      else if methodName == "dm2dens" then Success([prefix + "basis"])
      else Failure(KeyError)
    }
  }

  /** `__init__` with its failures: the exception it raises, or a new
      generator in the state the constructor describes. */
  method NewGenerator(inp: Inputs) returns (r: Result<HamiltonGenerator, Exception>)
    requires Shaped(inp)
    ensures r.Failure? <==> InitError(inp).Some?
    ensures r.Failure? ==> r.error == InitError(inp).value
    ensures r.Success? ==>
      && fresh(r.value) && r.value.Valid()
      && r.value.kinCoulMat == KinCoulMat(inp) && r.value.olpMat == OlpMat(inp) && r.value.basis == Basis(inp)
  {
    var err := InitError(inp);
    if err.Some? {
      return Failure(err.value);
    }
    var g := new HamiltonGenerator(inp);
    return Success(g);
  }
}
