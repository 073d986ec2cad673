# Contracted-Gaussian Hamiltonian generator and energy expressions, in Dafny

This project models two parts of the `ddft` density-functional code.

- **The Hamiltonian generator for contracted Cartesian Gaussians**
  (`ddft/hamiltons/hmolcgauss_gen.py`).
  - `Ecoeff` packs the powers of every pair of primitives into one integer
    key. It groups the primitive pairs by key, computes the Hermite-Coulomb
    coefficients R(r, s, t, n) through a memoized recursion, and assembles
    the nuclear-attraction matrices of every atom.
  - `HamiltonMoleculeCGaussGenerator` checks the sizing and optionally
    normalizes the primitives. It contracts primitive matrices and
    primitive grid values into basis functions (uniform or ragged group
    sizes), normalizes the contracted overlap and symmetrizes. It then
    builds the Hamiltonian for an external potential, maps density matrices
    to densities on the grid, and names the parameters each method reads.
- **Energy expressions** (`ddft/eks/base_eks.py`). These are trees of
  tensor, constant, negation, sum, product and quotient nodes. Python
  operator overloading builds them, after `_normalize` converts the other
  operand; `forward` evaluates them pointwise on a density.

Modules:

| file | module | what it holds |
|---|---|---|
| `wrappers.dfy` | `Wrappers` | `Option`, `Result` and the Python exceptions raised |
| `tensors.dfy` | `Tensors` | matrices and 3-tensors as sequences, sums and their algebra |
| `keys.dfy` | `Keys` | key packing and unpacking of pairs of powers |
| `hermite.dfy` | `Hermite` | the scalar Hermite-Coulomb recursion R |
| `integrals.dfy` | `Integrals` | pair data, the tensor recursion, class `Ecoeff` with its `r_memory` cache and `get_coulomb` |
| `contraction.dfy` | `Contraction` | `_contract` and the basis contraction, as written and corrected |
| `generator.dfy` | `Generator` | sizing, normalization and symmetrization; class `HamiltonGenerator` and its methods |
| `eks.dfy` | `Eks` | the expression tree, its evaluation, `_normalize`, the overloads and Python 3 dispatch |

Modelling choices:

- **Parameters for code outside the model.** What the generator obtains
  from other code arrives as inputs (`Generator.Inputs`):
  - the primitive overlap and kinetic matrices (compiled routines);
  - the E coefficients (`EcoeffFn`, also compiled);
  - the Boys function (`BoysFn`);
  - the reciprocal square root (`InvSqrtFn`);
  - the values of the primitives at the grid points and the grid's volume
    elements.
- **Numbers.** Reals stand for doubles.
- **Expression values.** A computed expression value is `Some(x)` for a
  finite x, and `None` for an infinity or NaN.
- **Stateful code is imperative.**
  - `Ecoeff` is a class with a `map` field for `r_memory` and an `Option`
    field for the cached nuclear attraction.
  - `get_rcoeff` is a recursive method that updates the cache.
  - `get_coulomb` is a method with the source's four nested loops. Each
    loop is proved against the specification function `CoulombSpec`.

- **Bugs in the code.** `_contract`'s prefix-sum differencing equals the
  block sum only when the first group is non-empty. The normalization of
  the contracted matrices scales rows by norm[p]² instead of entries by
  norm[p]·norm[q]. `base_eks.py` has gaps in `_normalize` and in its
  operator methods (see Findings). For each
  of these the model keeps a member as written and a corrected member. The
  generator and the corrected dispatch are built on the corrected members,
  and "## Left out" says what that changes.

## Model

| member | source | states |
|---|---|---|
| Keys.KeyMatrix | ddft/hamiltons/hmolcgauss_gen.py:193-198 | cell (a, b) holds the packed key whose left powers are those of primitive b and whose right powers are those of primitive a; with powers below 8 unpacking the cell's key gives back exactly those two triples |
| Hermite.R | ddft/hamiltons/hmolcgauss_gen.py:302-313 | R is odd in each component of the displacement: an odd order r (s, t) along an axis where the displacement's x (y, z) component is zero gives 0 |
| Keys.UnpackPackRoundTrip | ddft/hamiltons/hmolcgauss_gen.py:320-330 | unpacking a key packed from powers below 8 returns both triples of powers |
| Keys.PackUnpackRoundTrip | ddft/hamiltons/hmolcgauss_gen.py:320-330 | every key below 64^3 unpacks to powers below 8 that pack back to the same key |
| Keys.PackKeyInjective | ddft/hamiltons/hmolcgauss_gen.py:196-198 | two pairs of powers below 8 share a key if and only if they are the same pair |
| Keys.PackKeyAliasesBeyondCap | ddft/hamiltons/hmolcgauss_gen.py:191-198 | with a power of 8 two different pairs share a key |
| Integrals.MakePairData | ddft/hamiltons/hmolcgauss_gen.py:193-223 | for exponents whose pairwise sums are non-zero (the sums the source divides by), the pair data is well formed; cell (a, b) has the packed key of (b, a) and gamma = alpha_b + alpha_a |
| Integrals.MakePairDataSymmetric | ddft/hamiltons/hmolcgauss_gen.py:199-207 | gamma and the displacement of the product centre from every atom do not depend on the order of the two primitives |
| Integrals.RTensor | ddft/hamiltons/hmolcgauss_gen.py:302-313 | the tensor recursion has one nprim × nprim matrix per atom for every (r, s, t, n), a negative index included |
| Integrals.RTensorIsR | ddft/hamiltons/hmolcgauss_gen.py:302-313 | every entry of the tensor recursion equals the scalar Hermite-Coulomb integral R(r, s, t, n) of its gamma and displacement |
| Integrals.CoulombSpec | ddft/hamiltons/hmolcgauss_gen.py:273-285 | atom at's attraction in cell (a, b) is -(2 pi / gamma) times the cell's triple sum of E products and R values, one natoms × nprim × nprim tensor |
| Integrals.UniqueKeysSpec | ddft/hamiltons/hmolcgauss_gen.py:225-227 | the unique keys are strictly increasing, every cell's key is among them, and each of them is some cell's key |
| Integrals.CellInExactlyOneGroup | ddft/hamiltons/hmolcgauss_gen.py:227-228 | every cell belongs to exactly one of the groups `idx_ijk` |
| Integrals.Ecoeff.constructor | ddft/hamiltons/hmolcgauss_gen.py:186-245 | for at least one primitive (with none, line 225 raises; see `Generator.InitError`) the object is valid, holds the pair data of its arguments, and starts with an empty R cache and no cached attraction |
| Integrals.Ecoeff.AccessRCoeff | ddft/hamiltons/hmolcgauss_gen.py:345-350 | the result is None exactly when the key is absent; a hit is the R tensor its key names |
| Integrals.Ecoeff.GetRCoeff | ddft/hamiltons/hmolcgauss_gen.py:293-318 | the result is the R tensor. A negative index gives zero and leaves the cache alone. Otherwise the result is stored under its key, a cached key changes nothing, and no other entry changes |
| Integrals.Ecoeff.GetCoulomb | ddft/hamiltons/hmolcgauss_gen.py:268-286 | every cell of every atom's matrix is -(2 pi / gamma) times the triple sum of E products and R values over its key's powers; the result is cached, a second call returns it without touching the R cache, and cached R entries survive |
| Integrals.Ecoeff.AccumulateGroup | ddft/hamiltons/hmolcgauss_gen.py:277-284 | the r loop completes the triple sum of one key's cells and leaves every other cell as it was |
| Integrals.Ecoeff.AccumulateS | ddft/hamiltons/hmolcgauss_gen.py:279-284 | the s loop adds every s term for one r to one key's cells |
| Integrals.Ecoeff.AccumulateT | ddft/hamiltons/hmolcgauss_gen.py:281-284 | the t loop adds every t term for one (r, s) to one key's cells |
| Integrals.Ecoeff.AddTerm | ddft/hamiltons/hmolcgauss_gen.py:282-284 | `coulomb[:, idx] += E E E R` adds one term to exactly the cells of one key |
| Integrals.CoulombCellFormula | ddft/hamiltons/hmolcgauss_gen.py:273-284 | with powers below 8 a cell's sum runs over r <= k + u, s <= l + v and t <= m + w, with (k, l, m) the powers of primitive b and (u, v, w) those of primitive a |
| Integrals.CoulombSymmetric | ddft/hamiltons/hmolcgauss_gen.py:268-286 | each atom's nuclear-attraction matrix is symmetric when the pair data and the E coefficients are symmetric in the two primitives |
| Contraction.PyIndex | ddft/hamiltons/hmolcgauss_gen.py:171 | a Python index is valid exactly in [-len, len), and a negative one counts from the end |
| Contraction.AsWrittenIndicesInRange | ddft/hamiltons/hmolcgauss_gen.py:171 | with a non-empty first group, the sampled indices `cumsum(nelmts) - 1` are in range exactly when the groups fit |
| Contraction.GroupSumsAreBlockSums | ddft/hamiltons/hmolcgauss_gen.py:171-174 | the corrected ragged branch gives each group the sum of its own entries |
| Contraction.AsWrittenAgrees | ddft/hamiltons/hmolcgauss_gen.py:171-174 | with a non-empty first group, the written cumulative-sum-and-difference branch equals the group sums |
| Contraction.LeadingEmptyGroupMisplaced | ddft/hamiltons/hmolcgauss_gen.py:171-174 | with sizes [0, 2] the written branch gives [total, 0] where the group sums are [0, total] |
| Contraction.LeadingEmptyThreeGroups | ddft/hamiltons/hmolcgauss_gen.py:171-174 | with sizes [0, 1, 1] every sampled index is in range, and the written branch gives [total, -v1, v1] where the group sums are [0, v0, v1] |
| Contraction.EmptyGroupOfNothing | ddft/hamiltons/hmolcgauss_gen.py:162-181 | with no primitives and sizes [0] `_contract` on its own, as written, raises IndexError, while the corrected contraction succeeds; through `__init__` line 225 raises RuntimeError before `_contract` is reached |
| Contraction.IndicesInRangeWithEntries | ddft/hamiltons/hmolcgauss_gen.py:171 | with at least one primitive the sampled indices `cumsum(nelmts) - 1` are in range exactly when the groups fit, even with an empty first group |
| Contraction.ContractAsWritten | ddft/hamiltons/hmolcgauss_gen.py:162-181 | `_contract` as written fails only with IndexError, and only for ragged sizes |
| Contraction.Contract | ddft/hamiltons/hmolcgauss_gen.py:162-181 | the corrected `_contract` fails only with IndexError, and only for ragged sizes |
| Contraction.ContractSucceeds | ddft/hamiltons/hmolcgauss_gen.py:162-181 | the contraction succeeds exactly when the groups need no more primitives than there are, failing with IndexError otherwise, and returns one row and column per group |
| Contraction.RaggedCell | ddft/hamiltons/hmolcgauss_gen.py:170-174 | the ragged branch's entry (p, q) is the sum of the weighted block of groups p and q |
| Contraction.UniformCell | ddft/hamiltons/hmolcgauss_gen.py:176-179 | the uniform branch's entry (p, q) is the sum of the weighted block of rows p*ne.. and columns q*ne.. |
| Contraction.UniformAgreesWithRagged | ddft/hamiltons/hmolcgauss_gen.py:169-179 | a uniform size contracts exactly like the same size given for every group |
| Contraction.ContractIsBlockSum | ddft/hamiltons/hmolcgauss_gen.py:162-181 | every contracted entry is the sum, over the two groups' block, of the matrix times both coefficients |
| Contraction.ContractAsWrittenAgrees | ddft/hamiltons/hmolcgauss_gen.py:162-181 | with a non-empty first group `_contract` as written equals the corrected one, errors included |
| Contraction.ContractSymmetric | ddft/hamiltons/hmolcgauss_gen.py:162-181 | contracting a symmetric primitive matrix gives a symmetric matrix |
| Contraction.ContractAsWrittenLeadingEmpty | ddft/hamiltons/hmolcgauss_gen.py:169-174 | with sizes [0, 2] `_contract` as written puts the whole weighted sum on the empty basis function 0 |
| Contraction.ContractLeadingEmpty | ddft/hamiltons/hmolcgauss_gen.py:169-174 | with sizes [0, 2] the corrected contraction leaves basis function 0 at zero and gives basis function 1 the whole weighted sum |
| Contraction.ContractBasisAsWritten | ddft/hamiltons/hmolcgauss_gen.py:120-126 | the basis contraction as written fails only with IndexError, and only for ragged sizes |
| Contraction.ContractBasis | ddft/hamiltons/hmolcgauss_gen.py:120-126 | the corrected basis contraction fails only with IndexError, and only for ragged sizes |
| Contraction.ContractBasisSucceeds | ddft/hamiltons/hmolcgauss_gen.py:120-126 | the basis contraction succeeds exactly when the groups fit, failing with IndexError otherwise, and has one row per group |
| Contraction.ContractBasisIsGroupSum | ddft/hamiltons/hmolcgauss_gen.py:120-126 | basis function p at grid point r is the sum over its primitives of coefficient times primitive value |
| Contraction.ContractBasisAsWrittenAgrees | ddft/hamiltons/hmolcgauss_gen.py:122-124 | with a non-empty first group the written basis contraction equals the corrected one, errors included |
| Generator.Sizing | ddft/hamiltons/hmolcgauss_gen.py:62-69 | sizing succeeds exactly for 3-dimensional centres and, for a uniform size, a non-zero divisor of the primitive count. A wrong dimension raises AssertionError, size 0 raises ZeroDivisionError, and a size that does not divide the count raises AssertionError. On success the basis size is the number of groups, and uniform groups cover the primitives exactly |
| Generator.ChargeRows | ddft/hamiltons/hmolcgauss_gen.py:83 | the charges broadcast against the atoms exactly when their numbers are equal or either is 1; the result has the other number wherever one of them is 1 |
| Generator.InitError | ddft/hamiltons/hmolcgauss_gen.py:62-99 | `__init__` raises, in this order: the sizing failure; RuntimeError when there are no primitives (`ijk_left.max()` of an empty tensor at line 225); RuntimeError when the charges do not broadcast against the atoms; IndexError when the ragged groups need more primitives than there are. It raises nothing exactly when all four pass |
| Generator.InitErrorIndexAsWritten | ddft/hamiltons/hmolcgauss_gen.py:96-99 | once the earlier checks pass, `InitError` gives IndexError exactly when `_contract` as written indexes out of range, and nothing exactly when every index is valid |
| Generator.SymmetrizeSymmetric | ddft/hamiltons/hmolcgauss_gen.py:110-112 | `(m + mᵀ) * 0.5` is symmetric and leaves a symmetric matrix unchanged |
| Generator.ScaleByNormsSymmetric | ddft/hamiltons/hmolcgauss_gen.py:103-108 | the corrected normalization of line 104 (see Findings), scaling entry (p, q) by norm[p]·norm[q], keeps a symmetric matrix symmetric |
| Generator.RowScalingDifference | ddft/hamiltons/hmolcgauss_gen.py:103-112 | for a symmetric matrix, scaling row p by norm[p]² as written and then symmetrizing gives entry (p, q) equal to the outer-product scaling plus m[p][q]·(norm[p] − norm[q])²/2, so the two agree wherever the norms are equal |
| Generator.RowScalingMisnormalizes | ddft/hamiltons/hmolcgauss_gen.py:103-112 | the contracted overlap [[1, 1], [1, 4]] has norms [1, 0.5]; as written its entry (0, 1) becomes 0.625, where the outer product gives 0.5 |
| Generator.RowScalingUnitDiagonal | ddft/hamiltons/hmolcgauss_gen.py:102-112 | the row scaling as written also leaves a unit diagonal whenever the diagonal was positive |
| Generator.OlpMatAsWrittenUnitDiagonal | ddft/hamiltons/hmolcgauss_gen.py:99-112 | the overlap as `__init__` computes it, scaled row by row, has a unit diagonal whenever the contracted overlap's diagonal is positive |
| Generator.NormalizedUnitDiagonal | ddft/hamiltons/hmolcgauss_gen.py:102-112 | dividing by the square roots of a positive diagonal and symmetrizing gives a unit diagonal |
| Generator.OlpMatUnitDiagonal | ddft/hamiltons/hmolcgauss_gen.py:99-112 | the final overlap has a unit diagonal whenever the contracted overlap's diagonal is positive |
| Generator.OlpMatIsNormalizedContraction | ddft/hamiltons/hmolcgauss_gen.py:100-112 | with the corrected normalization of line 104 and a symmetric primitive overlap, the symmetrization at lines 111-112 changes nothing: the overlap is the contraction scaled by norm[p]·norm[q], the overlap of the normalized basis functions of line 127 |
| Generator.HamiltonGenerator.constructor | ddft/hamiltons/hmolcgauss_gen.py:58-129 | the new generator is valid (symmetric kinetic-Coulomb and overlap matrices, consistent shapes). The basis size is the sizing result and the Coulomb matrices are the nuclear attraction weighted by the charges, broadcast as torch does. The kinetic-Coulomb matrix, overlap and basis are normalized, contracted and symmetrized from the inputs |
| Generator.NewGenerator | ddft/hamiltons/hmolcgauss_gen.py:58-129 | construction fails exactly when `InitError` names an exception (sizing, no primitives, charge broadcast, ragged group bound), with that exception; otherwise the generator is valid and holds the constructed matrices |
| Generator.ExtPotentialIsIntegral | ddft/hamiltons/hmolcgauss_gen.py:134 | the einsum with `basis_dvolume` is the potential integrated over the grid against the two basis functions, and that integral is symmetric in them |
| Generator.HamiltonGenerator.GetHamiltonian | ddft/hamiltons/hmolcgauss_gen.py:131-137 | the Hamiltonian is a symmetric nbasis × nbasis matrix |
| Generator.HamiltonGenerator.HamiltonianIsPotentialPlusKinCoul | ddft/hamiltons/hmolcgauss_gen.py:134-136 | each Hamiltonian entry is the potential's integral against the two basis functions plus the kinetic-Coulomb entry, so the symmetrization changes nothing |
| Generator.HamiltonGenerator.Dm2Dens | ddft/hamiltons/hmolcgauss_gen.py:142-149 | the result is the einsum density `Σ_jk dm[j][k] φ_j φ_k` at every grid point, one value per point, and its entry r is the sum over j of the row-j terms |
| Generator.DensityLinear | ddft/hamiltons/hmolcgauss_gen.py:148 | the density is additive in the density matrix |
| Generator.DensityOfOrbital | ddft/hamiltons/hmolcgauss_gen.py:148 | the density of the density matrix `c cᵀ` is the square of the orbital `Σ c_j φ_j`, hence never negative |
| Generator.HamiltonGenerator.GetParamNames | ddft/hamiltons/hmolcgauss_gen.py:151-159 | the three known method names succeed and every other raises KeyError; each name is the prefix followed by a field of the generator |
| Eks.Combine | ddft/eks/base_eks.py:70-89 | a binary operation succeeds exactly when the shapes broadcast, raising RuntimeError otherwise; the result has the broadcast length and applies the operation pointwise |
| Eks.Eval | ddft/eks/base_eks.py:44-89 | evaluating a tree can raise only RuntimeError |
| Eks.ConstEval | ddft/eks/base_eks.py:52-53 | a constant evaluates to c at every point of the density |
| Eks.TensorEval | ddft/eks/base_eks.py:44-45 | a tensor node evaluates to the tensor when shapes match, broadcasts a one-element tensor, raises exactly when the shapes do not broadcast, and ignores the density's values |
| Eks.NegEval | ddft/eks/base_eks.py:61-62 | negation succeeds exactly when its operand does, and negates pointwise |
| Eks.NegNeg | ddft/eks/base_eks.py:61-62 | negating twice evaluates like the original |
| Eks.SubEval | ddft/eks/base_eks.py:16-18 | `AddEKS(a, NegEKS(b))` evaluates to a(d) - b(d), errors included |
| Eks.RSubEval | ddft/eks/base_eks.py:20-22 | `AddEKS(NegEKS(a), b)` evaluates to b(d) - a(d), errors included |
| Eks.AddCommutes | ddft/eks/base_eks.py:70-80 | sums and products evaluate the same with their operands swapped |
| Eks.DivEval | ddft/eks/base_eks.py:88-89 | a quotient is finite at a point exactly when both operands are finite there and the divisor is not zero, and there it is their quotient |
| Eks.ConformingEval | ddft/eks/base_eks.py:44-89 | a tree whose tensors fit the density never raises and has the density's shape; without a quotient every value is finite |
| Eks.NormalizeAsWritten | ddft/eks/base_eks.py:92-100 | `_normalize` as written succeeds exactly for EKS, int and float operands; tensors and everything else raise TypeError |
| Eks.Normalize | ddft/eks/base_eks.py:92-100 | the corrected `_normalize` fails, with TypeError, exactly for operands of no known type; it keeps an EKS operand and turns a number into a constant of the same value |
| Eks.NormalizeTensorBranch | ddft/eks/base_eks.py:95-96 | the two versions agree except on tensors, where the written one raises and the corrected one gives a node that evaluates to the tensor |
| Eks.Add | ddft/eks/base_eks.py:12-14 | `__add__` succeeds exactly when the operand normalizes under the chosen `_normalize`, else TypeError; with `_normalize` as written a tensor operand always raises TypeError |
| Eks.Sub | ddft/eks/base_eks.py:16-18 | `__sub__` succeeds exactly when the operand normalizes under the chosen `_normalize`, else TypeError; with `_normalize` as written a tensor operand always raises TypeError |
| Eks.RSub | ddft/eks/base_eks.py:20-22 | `__rsub__` succeeds exactly when the operand normalizes under the chosen `_normalize`, else TypeError; with `_normalize` as written a tensor operand always raises TypeError |
| Eks.Mul | ddft/eks/base_eks.py:24-26 | `__mul__` succeeds exactly when the operand normalizes under the chosen `_normalize`, else TypeError; with `_normalize` as written a tensor operand always raises TypeError |
| Eks.Div | ddft/eks/base_eks.py:28-30 | `__div__` succeeds exactly when the operand normalizes under the chosen `_normalize`, else TypeError; with `_normalize` as written a tensor operand always raises TypeError |
| Eks.RDiv | ddft/eks/base_eks.py:32-34 | `__rdiv__` succeeds exactly when the operand normalizes under the chosen `_normalize`, else TypeError; with `_normalize` as written a tensor operand always raises TypeError |
| Eks.OperatorsEvaluate | ddft/eks/base_eks.py:12-34 | with either `_normalize`, each overload whose operand normalizes builds a tree evaluating to its operation, with the operands in the order the operator reads them |
| Eks.NegOperator | ddft/eks/base_eks.py:36-37 | `-e` negates e pointwise and `-(-e)` evaluates like e |
| Eks.DispatchAsWritten | ddft/eks/base_eks.py:12-37 | Python 3 dispatch with the methods and `_normalize` as written fails only with TypeError, and always when either operand is a tensor |
| Eks.RAdd | ddft/eks/base_eks.py:12-14 | the reflected sum succeeds exactly when the operand normalizes, else TypeError |
| Eks.RMul | ddft/eks/base_eks.py:24-26 | the reflected product succeeds exactly when the operand normalizes, else TypeError |
| Eks.Dispatch | ddft/eks/base_eks.py:12-37 | the corrected dispatch fails, with TypeError, exactly when an operand cannot be normalized |
| Eks.DispatchEvaluates | ddft/eks/base_eks.py:12-37 | whichever side the EKS operand is on, `x op y` evaluates to the operation on x's and y's values in that order |
| Eks.DispatchAsWrittenGaps | ddft/eks/base_eks.py:12-37 | the written dispatch succeeds exactly when the corrected one does, neither operand is a tensor, the operator is not `/`, and the EKS operand is on the left unless the operator is `-`; where it succeeds it builds the same tree |
| Eks.ReflectedAndDivisionMissing | ddft/eks/base_eks.py:12-34 | `e + 2.0` works while `2.0 + e`, `2.0 * e`, `e / 2.0` and `e + torch.ones(3)` raise TypeError as written; the corrected dispatch evaluates `2.0 + e` like `e + 2.0` and `e / 2.0` as the quotient, and adds a tensor node for `e + torch.ones(3)` |

## Left out

- The compiled routines for the E coefficients, the primitive overlap and
  the kinetic matrices are foreign calls. So are the Boys function
  (incomplete gamma function) and `exp` and `sqrt`. The model takes all of
  them as parameters or inputs.
- The grid is left out: `rgrid_in_xyz`, `get_dvolume`, and the primitive
  values at the grid points with their `1e-15` offset. The model takes the
  primitive values (`basisAll`) and the volume elements as inputs.
- The `e_memory` cache of E coefficients belongs to the compiled routines
  and is not modelled.
- `Ecoeff.get_overlap` and `Ecoeff.get_kinetics` only cache compiled
  results, and their values are inputs.
- `_boys` is the Boys-function parameter and is not modelled itself.
- `Ecoeff._split_pair` is never called and is not modelled.
- `get_overlap` of the generator wraps `olp_mat` in a `LinearOperator`. The
  model exposes `olpMat` itself.
- Batch dimensions, dtype, device and the `view` reshapes are left out.
  Every matrix is a single matrix.
- Generator.HamiltonGenerator.GetHamiltonian: returns the symmetric matrix
  itself, not the `LinearOperator` wrapper. The external potential is one
  vector, not a batch.
- Generator.HamiltonGenerator.Dm2Dens: handles a single density matrix, not
  a batch.
- Integrals.Ecoeff.GetRCoeff: for a negative index the source returns the
  scalar `0.0`. The model returns the zero tensor, which broadcasts the same
  way wherever the value is used.
- Generator.HamiltonGenerator.constructor: requires that sizing succeed,
  that there be a primitive, and that the charge broadcast and the ragged
  group bound succeed.
  Generator.NewGenerator models the failing cases.
- Generator.HamiltonGenerator.constructor: contracts with the corrected
  `_contract` and basis contraction, not the written ones. With two
  primitives and `nelmts = tensor([0, 1, 1])` the source's groups are
  [φ0 + φ1, -φ1, φ1] and it raises nothing; the model's are [0, φ0, φ1].
  With a non-empty first group the two agree (see Findings).
- Generator.HamiltonGenerator.constructor: normalizes with the corrected
  outer product norm[p]·norm[q], not the row scaling by norm[p]² that
  line 104 computes (see Findings). The source's `kin_coul_mat` and
  `olp_mat` entry (p, q) is the model's plus M[p][q]·(norm[p] − norm[q])²/2
  (`Generator.RowScalingDifference`), and so are the Hamiltonian's.
  For example, uniform groups of one, coefficients [1, 2], no element
  normalization and primitive overlap [[1, 0.5], [0.5, 1]] give
  `olp_mat[0][1]` = 0.625 in the source and 0.5 in the model. The diagonal
  is 1 in both.
- Generator.NewGenerator: builds the generator with the corrected
  normalization described in the line above, so its matrices differ from
  the source's in the same way for the same inputs.
- Generator.NewGenerator: requires every two exponents to have a non-zero
  sum. The source does not check this: a zero sum makes `kappa` and `rc`
  NaN at lines 202-205, and the model has no NaN. Negative exponents with
  non-zero sums are covered.
- Integrals.MakePairData: requires every two exponents to have a non-zero
  sum, for the same reason; the source computes NaN there.
- Integrals.Ecoeff.constructor: requires every two exponents to have a
  non-zero sum, as `MakePairData` does. It also requires at least one
  primitive: with none the source raises RuntimeError at line 225, which
  `Generator.InitError` and `Generator.NewGenerator` model.
- Generator.NewGenerator: assumes the shapes the source leaves to torch to
  check: one power triple, exponent and centre per primitive, and
  primitive matrices and grid values of matching sizes. A mismatch there
  would raise RuntimeError inside torch.
- Eks.DivEval: doubles are modelled by reals, and `None` stands for every
  infinity and NaN. IEEE results such as `1 / inf = 0` and `inf - inf = NaN`
  are therefore not distinguished: an infinity always stays `None`.
- Eks.Eval: only one-dimensional densities and tensors are modelled, with
  broadcasting between them. `torch.nn.Module` and the abstract `forward`
  of `BaseEKS` are left out.
- Floating-point rounding is not modelled anywhere: all arithmetic is on
  reals.

## Findings

| source | as written | input that shows it | evidently intended | confidence | as-written member | corrected member |
|---|---|---|---|---|---|---|
| ddft/eks/base_eks.py:96 | the tensor branch of `_normalize` calls `TensorEKS()` without the tensor, which raises TypeError | `e + torch.ones(3)` for an EKS `e` | `TensorEKS(a)`, a node that evaluates to the tensor | not executed | Eks.NormalizeAsWritten, Eks.NormalizeTensorBranch | Eks.Normalize |
| ddft/eks/base_eks.py:28-34 | division is defined as `__div__`/`__rdiv__`, names Python 3 never calls, so `/` raises TypeError | `e / 2.0` | `__truediv__`/`__rtruediv__` with the same bodies | not executed | Eks.DispatchAsWritten, Eks.ReflectedAndDivisionMissing | Eks.Dispatch |
| ddft/eks/base_eks.py:12-26 | `__radd__` and `__rmul__` are missing, so a number on the left of `+` or `*` raises TypeError although `__rsub__` exists | `2.0 + e`, `2.0 * e` | reflected sum and product | not executed | Eks.DispatchAsWritten, Eks.DispatchAsWrittenGaps | Eks.Dispatch |
| ddft/hamiltons/hmolcgauss_gen.py:171-174 | `cumsum(nelmts) - 1` is -1 for an empty first group, so Python indexing wraps to the last cumulative sum. The empty basis function gets the whole sum and the next ones get differences of the wrong sums, with no error: with sizes [0, 1, 1] the groups are [φ0 + φ1, -φ1, φ1]. The basis contraction at lines 122-124 does the same. `_contract` on its own raises IndexError for sizes [0] with no primitives, but `__init__` never gets there: line 225 raises RuntimeError first | `nelmts = tensor([0, 2])` or `tensor([0, 1, 1])` with two primitives | group sums: 0 for the empty group and the total for the second | not executed | Contraction.ContractAsWritten, Contraction.ContractAsWrittenLeadingEmpty, Contraction.LeadingEmptyThreeGroups, Contraction.EmptyGroupOfNothing | Contraction.Contract, Contraction.ContractLeadingEmpty |
| ddft/hamiltons/hmolcgauss_gen.py:104 | `norm` is one-dimensional, so `norm.unsqueeze(-1)` and `norm.unsqueeze(1)` are both the column (nbasis, 1). `norm_mat` holds norm[p]² in row p, lines 107-108 scale row p of `kin_coul_mat` and `olp_mat` by norm[p]², and lines 111-112 average that with the transpose instead of scaling by norm[p]·norm[q] | uniform groups of one, coefficients [1, 2], `normalize_elmts=False`, primitive overlap [[1, 0.5], [0.5, 1]]: contracted overlap [[1, 1], [1, 4]], norms [1, 0.5], `olp_mat[0][1]` = 0.625 | the outer product `norm.unsqueeze(-1) * norm.unsqueeze(0)`, which the comment's shape (nbasis, nbasis) and the basis scaled by norm[p] at line 127 call for, giving 0.5 | not executed | Generator.ScaleRowsByNormSq, Generator.OlpMatAsWritten, Generator.RowScalingDifference, Generator.RowScalingMisnormalizes | Generator.ScaleByNorms, Generator.OlpMatIsNormalizedContraction |
