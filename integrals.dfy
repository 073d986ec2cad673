/** The one-electron integral bookkeeping of `Ecoeff` (hmolcgauss_gen.py):
    pair quantities of every two primitives, the memoized Hermite-Coulomb
    coefficients R and the nuclear-attraction matrices. The E coefficients
    come from compiled code that is not part of this model and the Boys
    function is left uninterpreted: both are parameters. */
module Integrals {
  import opened Wrappers
  import opened Tensors
  import opened Keys
  import opened Hermite

  /** The value `np.pi` as a double. */
  const Pi: real := 3.141592653589793

  /** E^{ij}_t along one axis for matrix cell (a, b), taking
      (a, b, i, j, t, axis). */
  type EcoeffFn = (nat, nat, nat, nat, nat, nat) -> real

  /** What `Ecoeff.__init__` derives from the primitives and the atoms. */
  datatype PairData = PairData(
    nprim: nat,                     // nbasis * nelmts
    natoms: nat,
    keys: seq<seq<nat>>,            // ijk_pairs2
    gamma: Matrix,                  // alpha_b + alpha_a
    rcd: seq<seq<seq<Vec3>>>,       // product centre minus atom position
    boys: BoysFn,
    ecoeff: EcoeffFn)

  ghost predicate WellFormed(d: PairData)
  {
    && |d.keys| == d.nprim && (forall a :: 0 <= a < d.nprim ==> |d.keys[a]| == d.nprim)
    && IsMatrix(d.gamma, d.nprim, d.nprim)
    && (forall a, b :: 0 <= a < d.nprim && 0 <= b < d.nprim ==> d.gamma[a][b] != 0.0)
    && |d.rcd| == d.natoms
    && (forall at :: 0 <= at < d.natoms ==> |d.rcd[at]| == d.nprim)
    && (forall at, a :: 0 <= at < d.natoms && 0 <= a < d.nprim ==> |d.rcd[at][a]| == d.nprim)
  }

  /** The Gaussian product centre (alpha_b c_b + alpha_a c_a) / gamma. */
  function ProductCentre(ca: Vec3, cb: Vec3, alphaA: real, alphaB: real): Vec3
    requires alphaA + alphaB != 0.0
  {
    var g := alphaB + alphaA;
    Vec3((alphaB * cb.x + alphaA * ca.x) / g,
         (alphaB * cb.y + alphaA * ca.y) / g,
         (alphaB * cb.z + alphaA * ca.z) / g)
  }

  function Minus(u: Vec3, v: Vec3): Vec3
  {
    Vec3(u.x - v.x, u.y - v.y, u.z - v.z)
  }

  /** Every two exponents, a primitive with itself included, have a non-zero
      sum: `Ecoeff.__init__` divides by it. */
  predicate PairSumsNonZero(alphas: seq<real>)
  {
    forall a, b :: 0 <= a < |alphas| && 0 <= b < |alphas| ==> alphas[a] + alphas[b] != 0.0
  }

  /** The pair quantities of `Ecoeff.__init__`. */
  function MakePairData(ijks: seq<Powers>, centres: seq<Vec3>, alphas: seq<real>, atompos: seq<Vec3>,
                        boys: BoysFn, ecoeff: EcoeffFn): (d: PairData)
    requires |centres| == |ijks| && |alphas| == |ijks|
    requires PairSumsNonZero(alphas)
    ensures WellFormed(d)
    ensures d.nprim == |ijks| && d.natoms == |atompos| && d.boys == boys && d.ecoeff == ecoeff
    ensures forall a, b :: 0 <= a < |ijks| && 0 <= b < |ijks| ==>
              d.keys[a][b] == PackKey(ijks[b], ijks[a]) && d.gamma[a][b] == alphas[b] + alphas[a]
  {
    var n := |ijks|;
    PairData(
      n, |atompos|, KeyMatrix(ijks),
      seq(n, a requires 0 <= a < n => seq(n, b requires 0 <= b < n => alphas[b] + alphas[a])),
      seq(|atompos|, at requires 0 <= at < |atompos| =>
        seq(n, a requires 0 <= a < n => seq(n, b requires 0 <= b < n =>
          Minus(ProductCentre(centres[a], centres[b], alphas[a], alphas[b]), atompos[at])))),
      boys, ecoeff)
  }

  // ---------------------------------------------------------------- R tensors

  /** The base case of `get_rcoeff`, (-2 gamma)^n Boys(n, gamma |rcd|^2). */
  function BaseTensor(d: PairData, n: nat): (x: Tensor3)
    requires WellFormed(d)
    ensures IsTensor3(x, d.natoms, d.nprim, d.nprim)
    ensures forall at, a, b {:trigger x[at][a][b]} :: 0 <= at < d.natoms && 0 <= a < d.nprim && 0 <= b < d.nprim ==>
              x[at][a][b] == RBaseValue(d.boys, d.gamma[a][b], d.rcd[at][a][b], n)
  {
    seq(d.natoms, at requires 0 <= at < d.natoms =>
      seq(d.nprim, a requires 0 <= a < d.nprim => seq(d.nprim, b requires 0 <= b < d.nprim =>
        RBaseValue(d.boys, d.gamma[a][b], d.rcd[at][a][b], n))))
  }

  function Coord(v: Vec3, axis: nat): real
  {
    if axis == 0 then v.x else if axis == 1 then v.y else v.z
  }

  /** One reduction step of `get_rcoeff` along `axis`:
      k * lower2 + rcd[..., axis] * lower1. */
  function StepTensor(d: PairData, axis: nat, k: real, lower2: Tensor3, lower1: Tensor3): (x: Tensor3)
    requires WellFormed(d)
    requires IsTensor3(lower2, d.natoms, d.nprim, d.nprim) && IsTensor3(lower1, d.natoms, d.nprim, d.nprim)
    ensures IsTensor3(x, d.natoms, d.nprim, d.nprim)
    ensures forall at, a, b {:trigger x[at][a][b]} :: 0 <= at < d.natoms && 0 <= a < d.nprim && 0 <= b < d.nprim ==>
              x[at][a][b] == Lin(k, lower2[at][a][b], Coord(d.rcd[at][a][b], axis), lower1[at][a][b])
  {
    seq(d.natoms, at requires 0 <= at < d.natoms =>
      seq(d.nprim, a requires 0 <= a < d.nprim => seq(d.nprim, b requires 0 <= b < d.nprim =>
        Lin(k, lower2[at][a][b], Coord(d.rcd[at][a][b], axis), lower1[at][a][b]))))
  }

  /** The recursion of `get_rcoeff` on whole (atom, row, column) tensors,
      without the cache: zero for a negative index, the Boys base case at
      (0, 0, 0), otherwise one step lowering r, else s, else t. */
  function RTensor(d: PairData, r: int, s: int, t: int, n: nat): (x: Tensor3)
    requires WellFormed(d)
    decreases Measure(r, s, t)
    ensures IsTensor3(x, d.natoms, d.nprim, d.nprim)
  {
    if r < 0 || s < 0 || t < 0 then ZeroTensor3(d.natoms, d.nprim, d.nprim)
    else if r == 0 && s == 0 && t == 0 then BaseTensor(d, n)
    else if r > 0 then
      StepTensor(d, 0, (r - 1) as real, RTensor(d, r - 2, s, t, n + 1), RTensor(d, r - 1, s, t, n + 1))
    else if s > 0 then
      StepTensor(d, 1, (s - 1) as real, RTensor(d, r, s - 2, t, n + 1), RTensor(d, r, s - 1, t, n + 1))
    else
      StepTensor(d, 2, (t - 1) as real, RTensor(d, r, s, t - 2, n + 1), RTensor(d, r, s, t - 1, n + 1))
  }

  /** Every entry of the tensor recursion is the Hermite-Coulomb integral
      R(r, s, t, n) of its cell's gamma and displacement. */
  lemma {:induction false} RTensorIsR(d: PairData, r: int, s: int, t: int, n: nat, at: nat, a: nat, b: nat)
    requires WellFormed(d) && at < d.natoms && a < d.nprim && b < d.nprim
    decreases Measure(r, s, t)
    ensures RTensor(d, r, s, t, n)[at][a][b] == R(d.boys, d.gamma[a][b], d.rcd[at][a][b], r, s, t, n)
  {
    var g, v := d.gamma[a][b], d.rcd[at][a][b];
    if r < 0 || s < 0 || t < 0 {
    } else if r == 0 && s == 0 && t == 0 {
    } else if r > 0 {
      RTensorIsR(d, r - 2, s, t, n + 1, at, a, b);
      RTensorIsR(d, r - 1, s, t, n + 1, at, a, b);
    } else if s > 0 {
      RTensorIsR(d, r, s - 2, t, n + 1, at, a, b);
      RTensorIsR(d, r, s - 1, t, n + 1, at, a, b);
    } else {
      RTensorIsR(d, r, s, t - 2, n + 1, at, a, b);
      RTensorIsR(d, r, s, t - 1, n + 1, at, a, b);
    }
  }

  /** `x` holds R(r, s, t, n) in every (atom, row, column) entry. */
  ghost predicate HoldsR(d: PairData, x: Tensor3, r: int, s: int, t: int, n: nat)
    requires WellFormed(d)
  {
    && IsTensor3(x, d.natoms, d.nprim, d.nprim)
    && forall at, a, b :: 0 <= at < d.natoms && 0 <= a < d.nprim && 0 <= b < d.nprim ==>
         x[at][a][b] == R(d.boys, d.gamma[a][b], d.rcd[at][a][b], r, s, t, n)
  }

  lemma RTensorHoldsR(d: PairData, r: int, s: int, t: int, n: nat)
    requires WellFormed(d)
    ensures HoldsR(d, RTensor(d, r, s, t, n), r, s, t, n)
  {
    forall at, a, b | 0 <= at < d.natoms && 0 <= a < d.nprim && 0 <= b < d.nprim
      ensures RTensor(d, r, s, t, n)[at][a][b] == R(d.boys, d.gamma[a][b], d.rcd[at][a][b], r, s, t, n)
    {
      RTensorIsR(d, r, s, t, n, at, a, b);
    }
  }

  // ------------------------------------------------------------- unique keys

  predicate StrictlyIncreasing(xs: seq<nat>)
  {
    forall i, j :: 0 <= i < j < |xs| ==> xs[i] < xs[j]
  }

  /** The cells' keys, row by row. */
  function Flatten(m: seq<seq<nat>>): seq<nat>
  {
    if |m| == 0 then [] else Flatten(m[..|m| - 1]) + m[|m| - 1]
  }

  /** Flattening keeps exactly the entries of the rows. */
  lemma {:induction false} FlattenContents(m: seq<seq<nat>>)
    ensures forall a, b :: 0 <= a < |m| && 0 <= b < |m[a]| ==> m[a][b] in Flatten(m)
    ensures forall x :: x in Flatten(m) ==> exists a, b :: 0 <= a < |m| && 0 <= b < |m[a]| && m[a][b] == x
    decreases |m|
  {
    if |m| > 0 {
      var n := |m| - 1;
      FlattenContents(m[..n]);
      forall a, b | 0 <= a < |m| && 0 <= b < |m[a]| ensures m[a][b] in Flatten(m) {
        if a < n {
          assert m[..n][a][b] == m[a][b];
        }
      }
      forall x | x in Flatten(m)
        ensures exists a, b :: 0 <= a < |m| && 0 <= b < |m[a]| && m[a][b] == x
      {
        if x in Flatten(m[..n]) {
          var a, b :| 0 <= a < n && 0 <= b < |m[..n][a]| && m[..n][a][b] == x;
          assert m[a][b] == x;
        } else {
          var b :| 0 <= b < |m[n]| && m[n][b] == x;
        }
      }
    }
  }

  /** Inserts `k` into an increasing sequence unless it is there already. */
  function Insert(xs: seq<nat>, k: nat): seq<nat>
  {
    if |xs| == 0 then [k]
    else if k < xs[0] then [k] + xs
    else if k == xs[0] then xs
    else [xs[0]] + Insert(xs[1..], k)
  }

  /** Insertion keeps the sequence increasing and adds exactly `k`. */
  lemma {:induction false} InsertSpec(xs: seq<nat>, k: nat)
    requires StrictlyIncreasing(xs)
    ensures StrictlyIncreasing(Insert(xs, k))
    ensures forall x :: x in Insert(xs, k) <==> x in xs || x == k
    decreases |xs|
  {
    if |xs| > 0 && k > xs[0] {
      var rest := Insert(xs[1..], k);
      InsertSpec(xs[1..], k);
      AboveHead(xs[0], xs[1..], k, rest);
      assert xs == [xs[0]] + xs[1..];
    }
  }

  lemma AboveHead(x0: nat, tail: seq<nat>, k: nat, rest: seq<nat>)
    requires forall y :: y in rest <==> y in tail || y == k
    requires forall i :: 0 <= i < |tail| ==> x0 < tail[i]
    requires x0 < k
    ensures forall i :: 0 <= i < |rest| ==> x0 < rest[i]
  {
    forall i | 0 <= i < |rest| ensures x0 < rest[i] {
      assert rest[i] in rest;
    }
  }

  /** `torch.unique`: the distinct values, in increasing order. */
  function UniqueSorted(xs: seq<nat>): seq<nat>
  {
    if |xs| == 0 then [] else Insert(UniqueSorted(xs[..|xs| - 1]), xs[|xs| - 1])
  }

  lemma {:induction false} UniqueSortedSpec(xs: seq<nat>)
    ensures StrictlyIncreasing(UniqueSorted(xs))
    ensures forall x :: x in UniqueSorted(xs) <==> x in xs
    decreases |xs|
  {
    if |xs| > 0 {
      var n := |xs| - 1;
      UniqueSortedSpec(xs[..n]);
      InsertSpec(UniqueSorted(xs[..n]), xs[n]);
      assert xs == xs[..n] + [xs[n]];
    }
  }

  /** `ijk_pairs2_unique`: the distinct keys of the cells. */
  function UniqueKeys(d: PairData): seq<nat>
  {
    UniqueSorted(Flatten(d.keys))
  }

  /** The groups are increasing, and their keys are exactly the cells' keys. */
  lemma UniqueKeysSpec(d: PairData)
    requires WellFormed(d)
    ensures StrictlyIncreasing(UniqueKeys(d))
    ensures forall a, b :: 0 <= a < d.nprim && 0 <= b < d.nprim ==> d.keys[a][b] in UniqueKeys(d)
    ensures forall x :: x in UniqueKeys(d) ==>
              exists a, b :: 0 <= a < d.nprim && 0 <= b < d.nprim && d.keys[a][b] == x
  {
    FlattenContents(d.keys);
    UniqueSortedSpec(Flatten(d.keys));
  }

  /** Every cell lies in exactly one of the groups `idx_ijk`. */
  lemma CellInExactlyOneGroup(d: PairData, a: nat, b: nat)
    requires WellFormed(d) && a < d.nprim && b < d.nprim
    ensures exists g :: 0 <= g < |UniqueKeys(d)| && UniqueKeys(d)[g] == d.keys[a][b]
    ensures forall g1, g2 :: (0 <= g1 < |UniqueKeys(d)| && 0 <= g2 < |UniqueKeys(d)|
              && UniqueKeys(d)[g1] == d.keys[a][b] && UniqueKeys(d)[g2] == d.keys[a][b]) ==> g1 == g2
  {
    var u := UniqueKeys(d);
    UniqueKeysSpec(d);
    assert d.keys[a][b] in u;
  }

  // ---------------------------------------------------------- nuclear attraction

  /** R(r, s, t, 0) of cell (a, b) for atom `at`. */
  function RAt(d: PairData, at: nat, a: nat, b: nat, r: nat, s: nat, t: nat): real
    requires WellFormed(d) && at < d.natoms && a < d.nprim && b < d.nprim
  {
    R(d.boys, d.gamma[a][b], d.rcd[at][a][b], r, s, t, 0)
  }

  /** One term E_r^{ku} E_s^{lv} E_t^{mw} R(r, s, t, 0) of cell (a, b), with
      (k, l, m) the left and (u, v, w) the right powers of `p` and `rv` the
      R value. */
  function Term(d: PairData, a: nat, b: nat, p: Unpacked, r: nat, s: nat, t: nat, rv: real): real
  {
    EProduct(d, a, b, p, r, s, t) * rv
  }

  /** E_r^{ku} E_s^{lv} E_t^{mw} of cell (a, b). */
  function EProduct(d: PairData, a: nat, b: nat, p: Unpacked, r: nat, s: nat, t: nat): real
  {
    d.ecoeff(a, b, p.left.x, p.right.x, r, 0) * d.ecoeff(a, b, p.left.y, p.right.y, s, 1)
      * d.ecoeff(a, b, p.left.z, p.right.z, t, 2)
  }

  /** Sum over t < tn of the terms, for fixed r and s. */
  function SumT(d: PairData, at: nat, a: nat, b: nat, p: Unpacked, r: nat, s: nat, tn: nat): real
    requires WellFormed(d) && at < d.natoms && a < d.nprim && b < d.nprim
  {
    if tn == 0 then 0.0 else SumT(d, at, a, b, p, r, s, tn - 1) + Term(d, a, b, p, r, s, tn - 1, RAt(d, at, a, b, r, s, tn - 1))
  }

  /** Sum over s < sn, each over all t <= m + w. */
  function SumS(d: PairData, at: nat, a: nat, b: nat, p: Unpacked, r: nat, sn: nat): real
    requires WellFormed(d) && at < d.natoms && a < d.nprim && b < d.nprim
  {
    if sn == 0 then 0.0
    else SumS(d, at, a, b, p, r, sn - 1) + SumT(d, at, a, b, p, r, sn - 1, p.left.z + p.right.z + 1)
  }

  /** Sum over r < rn, each over all s <= l + v and t <= m + w. */
  function SumR(d: PairData, at: nat, a: nat, b: nat, p: Unpacked, rn: nat): real
    requires WellFormed(d) && at < d.natoms && a < d.nprim && b < d.nprim
  {
    if rn == 0 then 0.0
    else SumR(d, at, a, b, p, rn - 1) + SumS(d, at, a, b, p, rn - 1, p.left.y + p.right.y + 1)
  }

  /** The full triple sum of cell (a, b), with the powers its key unpacks to. */
  function CellSum(d: PairData, at: nat, a: nat, b: nat): real
    requires WellFormed(d) && at < d.natoms && a < d.nprim && b < d.nprim
  {
    var p := Unpack(d.keys[a][b]);
    SumR(d, at, a, b, p, p.left.x + p.right.x + 1)
  }

  /** A triple sum scaled by the nuclear-attraction prefactor -2 pi / gamma. */
  function Attraction(gamma: real, sum: real): real
    requires gamma != 0.0
  {
    -(2.0 * Pi / gamma) * sum
  }

  /** The matrices `get_coulomb` promises: -(2 pi / gamma) times the triple sum. */
  function CoulombSpec(d: PairData): (x: Tensor3)
    requires WellFormed(d)
    ensures IsTensor3(x, d.natoms, d.nprim, d.nprim)
    ensures forall at, a, b {:trigger x[at][a][b]} :: 0 <= at < d.natoms && 0 <= a < d.nprim && 0 <= b < d.nprim ==>
              x[at][a][b] == Attraction(d.gamma[a][b], CellSum(d, at, a, b))
  {
    seq(d.natoms, at requires 0 <= at < d.natoms =>
      seq(d.nprim, a requires 0 <= a < d.nprim => seq(d.nprim, b requires 0 <= b < d.nprim =>
        Attraction(d.gamma[a][b], CellSum(d, at, a, b)))))
  }

  /** The accumulator of `get_coulomb` in the middle of group g at (r, s, t):
      finished groups hold their full sums, group g its partial sum and every
      later cell zero. */
  function CellAcc(d: PairData, u: seq<nat>, g: nat, r: nat, s: nat, t: nat, at: nat, a: nat, b: nat): real
    requires WellFormed(d) && g <= |u| && at < d.natoms && a < d.nprim && b < d.nprim
  {
    var key := d.keys[a][b];
    if key in u[..g] then CellSum(d, at, a, b)
    else if g < |u| && key == u[g] then
      var p := Unpack(key);
      SumR(d, at, a, b, p, r) + SumS(d, at, a, b, p, r, s) + SumT(d, at, a, b, p, r, s, t)
    else 0.0
  }

  function Acc(d: PairData, u: seq<nat>, g: nat, r: nat, s: nat, t: nat): (x: Tensor3)
    requires WellFormed(d) && g <= |u|
    ensures IsTensor3(x, d.natoms, d.nprim, d.nprim)
    ensures forall at, a, b {:trigger x[at][a][b]} :: 0 <= at < d.natoms && 0 <= a < d.nprim && 0 <= b < d.nprim ==>
              x[at][a][b] == CellAcc(d, u, g, r, s, t, at, a, b)
  {
    seq(d.natoms, at requires 0 <= at < d.natoms =>
      seq(d.nprim, a requires 0 <= a < d.nprim => seq(d.nprim, b requires 0 <= b < d.nprim =>
        CellAcc(d, u, g, r, s, t, at, a, b))))
  }

  /** `coulomb[:, idx] += (Erku * Eslv * Etmw) * Rrst` for the cells whose key is `key`. */
  function AddGroupTerm(d: PairData, acc: Tensor3, key: nat, r: nat, s: nat, t: nat, rc: Tensor3): (x: Tensor3)
    requires WellFormed(d)
    requires IsTensor3(acc, d.natoms, d.nprim, d.nprim) && IsTensor3(rc, d.natoms, d.nprim, d.nprim)
    ensures IsTensor3(x, d.natoms, d.nprim, d.nprim)
    ensures forall at, a, b {:trigger x[at][a][b]} :: 0 <= at < d.natoms && 0 <= a < d.nprim && 0 <= b < d.nprim ==>
              x[at][a][b] == if d.keys[a][b] == key then acc[at][a][b] + Term(d, a, b, Unpack(key), r, s, t, rc[at][a][b])
                             else acc[at][a][b]
  {
    seq(d.natoms, at requires 0 <= at < d.natoms =>
      seq(d.nprim, a requires 0 <= a < d.nprim => seq(d.nprim, b requires 0 <= b < d.nprim =>
        if d.keys[a][b] == key then acc[at][a][b] + Term(d, a, b, Unpack(key), r, s, t, rc[at][a][b])
        else acc[at][a][b])))
  }

  /** `-(2*np.pi/self.gamma) * coulomb`. */
  function ScaleByGamma(d: PairData, acc: Tensor3): (x: Tensor3)
    requires WellFormed(d) && IsTensor3(acc, d.natoms, d.nprim, d.nprim)
    ensures IsTensor3(x, d.natoms, d.nprim, d.nprim)
    ensures forall at, a, b {:trigger x[at][a][b]} :: 0 <= at < d.natoms && 0 <= a < d.nprim && 0 <= b < d.nprim ==>
              x[at][a][b] == Attraction(d.gamma[a][b], acc[at][a][b])
  {
    seq(d.natoms, at requires 0 <= at < d.natoms =>
      seq(d.nprim, a requires 0 <= a < d.nprim => seq(d.nprim, b requires 0 <= b < d.nprim =>
        Attraction(d.gamma[a][b], acc[at][a][b]))))
  }

  function TMax(key: nat): nat { Unpack(key).left.z + Unpack(key).right.z + 1 }
  function SMax(key: nat): nat { Unpack(key).left.y + Unpack(key).right.y + 1 }
  function RMax(key: nat): nat { Unpack(key).left.x + Unpack(key).right.x + 1 }

  lemma AccStart(d: PairData, u: seq<nat>)
    requires WellFormed(d)
    ensures Acc(d, u, 0, 0, 0, 0) == ZeroTensor3(d.natoms, d.nprim, d.nprim)
  {
    Tensor3Equal(Acc(d, u, 0, 0, 0, 0), ZeroTensor3(d.natoms, d.nprim, d.nprim), d.natoms, d.nprim, d.nprim);
  }

  /** A key of an increasing sequence is not among the keys before it. */
  lemma NotBefore(u: seq<nat>, g: nat)
    requires StrictlyIncreasing(u) && g < |u|
    ensures u[g] !in u[..g]
  {
    forall i | 0 <= i < g ensures u[..g][i] != u[g] { assert u[i] < u[g]; }
  }

  lemma CellAccStepTHit(d: PairData, u: seq<nat>, g: nat, r: nat, s: nat, t: nat, at: nat, a: nat, b: nat)
    requires WellFormed(d) && StrictlyIncreasing(u) && g < |u|
    requires at < d.natoms && a < d.nprim && b < d.nprim && d.keys[a][b] == u[g]
    ensures CellAcc(d, u, g, r, s, t + 1, at, a, b)
         == CellAcc(d, u, g, r, s, t, at, a, b)
            + Term(d, a, b, Unpack(u[g]), r, s, t, RAt(d, at, a, b, r, s, t))
  {
    NotBefore(u, g);
  }

  lemma CellAccStepTMiss(d: PairData, u: seq<nat>, g: nat, r: nat, s: nat, t: nat, at: nat, a: nat, b: nat)
    requires WellFormed(d) && g < |u|
    requires at < d.natoms && a < d.nprim && b < d.nprim && d.keys[a][b] != u[g]
    ensures CellAcc(d, u, g, r, s, t + 1, at, a, b) == CellAcc(d, u, g, r, s, t, at, a, b)
  {
  }

  lemma AccStepTCell(d: PairData, u: seq<nat>, g: nat, r: nat, s: nat, t: nat, at: nat, a: nat, b: nat)
    requires WellFormed(d) && StrictlyIncreasing(u) && g < |u|
    requires at < d.natoms && a < d.nprim && b < d.nprim
    ensures Acc(d, u, g, r, s, t + 1)[at][a][b]
         == if d.keys[a][b] == u[g]
            then Acc(d, u, g, r, s, t)[at][a][b]
                 + Term(d, a, b, Unpack(u[g]), r, s, t, RAt(d, at, a, b, r, s, t))
            else Acc(d, u, g, r, s, t)[at][a][b]
  {
    if d.keys[a][b] == u[g] {
      CellAccStepTHit(d, u, g, r, s, t, at, a, b);
    } else {
      CellAccStepTMiss(d, u, g, r, s, t, at, a, b);
    }
  }

  /** Adding one term to group g advances its partial sum over t. */
  lemma AccStepT(d: PairData, u: seq<nat>, g: nat, r: nat, s: nat, t: nat, rc: Tensor3)
    requires WellFormed(d) && StrictlyIncreasing(u) && g < |u| && HoldsR(d, rc, r, s, t, 0)
    ensures AddGroupTerm(d, Acc(d, u, g, r, s, t), u[g], r, s, t, rc) == Acc(d, u, g, r, s, t + 1)
  {
    var lhs := AddGroupTerm(d, Acc(d, u, g, r, s, t), u[g], r, s, t, rc);
    var rhs := Acc(d, u, g, r, s, t + 1);
    forall at, a, b | 0 <= at < d.natoms && 0 <= a < d.nprim && 0 <= b < d.nprim
      ensures lhs[at][a][b] == rhs[at][a][b]
    {
      AccStepTCell(d, u, g, r, s, t, at, a, b);
    }
    Tensor3Equal(lhs, rhs, d.natoms, d.nprim, d.nprim);
  }

  lemma AccStepS(d: PairData, u: seq<nat>, g: nat, r: nat, s: nat)
    requires WellFormed(d) && g < |u|
    ensures Acc(d, u, g, r, s, TMax(u[g])) == Acc(d, u, g, r, s + 1, 0)
  {
    Tensor3Equal(Acc(d, u, g, r, s, TMax(u[g])), Acc(d, u, g, r, s + 1, 0), d.natoms, d.nprim, d.nprim);
  }

  lemma AccStepR(d: PairData, u: seq<nat>, g: nat, r: nat)
    requires WellFormed(d) && g < |u|
    ensures Acc(d, u, g, r, SMax(u[g]), 0) == Acc(d, u, g, r + 1, 0, 0)
  {
    Tensor3Equal(Acc(d, u, g, r, SMax(u[g]), 0), Acc(d, u, g, r + 1, 0, 0), d.natoms, d.nprim, d.nprim);
  }

  /** Finishing group g completes exactly the cells with key u[g]. */
  lemma AccStepGroup(d: PairData, u: seq<nat>, g: nat)
    requires WellFormed(d) && g < |u|
    ensures Acc(d, u, g, RMax(u[g]), 0, 0) == Acc(d, u, g + 1, 0, 0, 0)
  {
    forall at, a, b | 0 <= at < d.natoms && 0 <= a < d.nprim && 0 <= b < d.nprim
      ensures CellAcc(d, u, g, RMax(u[g]), 0, 0, at, a, b) == CellAcc(d, u, g + 1, 0, 0, 0, at, a, b)
    {
      assert u[..g + 1] == u[..g] + [u[g]];
    }
    Tensor3Equal(Acc(d, u, g, RMax(u[g]), 0, 0), Acc(d, u, g + 1, 0, 0, 0), d.natoms, d.nprim, d.nprim);
  }

  /** Once every key has had its group, the accumulator is the triple sum. */
  lemma AccDone(d: PairData, u: seq<nat>)
    requires WellFormed(d)
    requires forall a, b :: 0 <= a < d.nprim && 0 <= b < d.nprim ==> d.keys[a][b] in u
    ensures ScaleByGamma(d, Acc(d, u, |u|, 0, 0, 0)) == CoulombSpec(d)
  {
    assert u[..|u|] == u;
    Tensor3Equal(ScaleByGamma(d, Acc(d, u, |u|, 0, 0, 0)), CoulombSpec(d), d.natoms, d.nprim, d.nprim);
  }

  /** With every power below 8, a cell's key unpacks to the powers of its two
      primitives, so each cell of `get_coulomb` is the McMurchie-Davidson sum
      over r <= k + u, s <= l + v, t <= m + w with (k, l, m) the powers of
      primitive b and (u, v, w) those of primitive a. */
  lemma CoulombCellFormula(d: PairData, ijks: seq<Powers>, at: nat, a: nat, b: nat)
    requires WellFormed(d) && d.keys == KeyMatrix(ijks)
    requires forall i :: 0 <= i < |ijks| ==> InRange(ijks[i])
    requires at < d.natoms && a < d.nprim && b < d.nprim
    ensures CellSum(d, at, a, b) == SumR(d, at, a, b, Unpacked(ijks[b], ijks[a]), ijks[b].x + ijks[a].x + 1)
  {
    assert d.keys[a][b] == PackKey(ijks[b], ijks[a]);
    assert Unpack(d.keys[a][b]) == Unpacked(ijks[b], ijks[a]) by {
      UnpackPackRoundTrip(ijks[b], ijks[a]);
    }
  }

  /** Pair quantities that do not depend on the order of the two primitives. */
  ghost predicate PairSymmetric(d: PairData)
    requires WellFormed(d)
  {
    && (forall a, b :: 0 <= a < d.nprim && 0 <= b < d.nprim ==> d.gamma[a][b] == d.gamma[b][a])
    && (forall at, a, b :: 0 <= at < d.natoms && 0 <= a < d.nprim && 0 <= b < d.nprim ==>
          d.rcd[at][a][b] == d.rcd[at][b][a])
    && (forall a, b, i, j, t, axis :: d.ecoeff(a, b, i, j, t, axis) == d.ecoeff(b, a, j, i, t, axis))
  }

  /** The displacement of every product centre from every atom. */
  lemma MakePairDataDisplacement(ijks: seq<Powers>, centres: seq<Vec3>, alphas: seq<real>, atompos: seq<Vec3>,
                                 boys: BoysFn, ecoeff: EcoeffFn)
    requires |centres| == |ijks| && |alphas| == |ijks|
    requires PairSumsNonZero(alphas)
    ensures var d := MakePairData(ijks, centres, alphas, atompos, boys, ecoeff);
      forall at, a, b {:trigger d.rcd[at][a][b]} :: 0 <= at < |atompos| && 0 <= a < |ijks| && 0 <= b < |ijks| ==>
        d.rcd[at][a][b] == Minus(ProductCentre(centres[a], centres[b], alphas[a], alphas[b]), atompos[at])
  {
  }

  /** The pair data of `Ecoeff.__init__` is symmetric in the two primitives
      whenever the E coefficients are. */
  lemma MakePairDataSymmetric(ijks: seq<Powers>, centres: seq<Vec3>, alphas: seq<real>, atompos: seq<Vec3>,
                              boys: BoysFn, ecoeff: EcoeffFn)
    requires |centres| == |ijks| && |alphas| == |ijks|
    requires PairSumsNonZero(alphas)
    requires forall a, b, i, j, t, axis :: ecoeff(a, b, i, j, t, axis) == ecoeff(b, a, j, i, t, axis)
    ensures PairSymmetric(MakePairData(ijks, centres, alphas, atompos, boys, ecoeff))
  {
    var d := MakePairData(ijks, centres, alphas, atompos, boys, ecoeff);
    MakePairDataDisplacement(ijks, centres, alphas, atompos, boys, ecoeff);
    forall at, a, b | 0 <= at < d.natoms && 0 <= a < d.nprim && 0 <= b < d.nprim
      ensures d.rcd[at][a][b] == d.rcd[at][b][a]
    {
      assert ProductCentre(centres[a], centres[b], alphas[a], alphas[b])
          == ProductCentre(centres[b], centres[a], alphas[b], alphas[a]);
    }
  }

  function Swap(p: Unpacked): Unpacked
  {
    Unpacked(p.right, p.left)
  }

  lemma {:induction false} SumTSymmetric(d: PairData, at: nat, a: nat, b: nat, p: Unpacked, r: nat, s: nat, tn: nat)
    requires WellFormed(d) && PairSymmetric(d) && at < d.natoms && a < d.nprim && b < d.nprim
    ensures SumT(d, at, a, b, p, r, s, tn) == SumT(d, at, b, a, Swap(p), r, s, tn)
  {
    if tn > 0 {
      SumTSymmetric(d, at, a, b, p, r, s, tn - 1);
      assert Term(d, a, b, p, r, s, tn - 1, RAt(d, at, a, b, r, s, tn - 1))
          == Term(d, b, a, Swap(p), r, s, tn - 1, RAt(d, at, b, a, r, s, tn - 1));
    }
  }

  lemma {:induction false} SumSSymmetric(d: PairData, at: nat, a: nat, b: nat, p: Unpacked, r: nat, sn: nat)
    requires WellFormed(d) && PairSymmetric(d) && at < d.natoms && a < d.nprim && b < d.nprim
    ensures SumS(d, at, a, b, p, r, sn) == SumS(d, at, b, a, Swap(p), r, sn)
  {
    if sn > 0 {
      SumSSymmetric(d, at, a, b, p, r, sn - 1);
      SumTSymmetric(d, at, a, b, p, r, sn - 1, p.left.z + p.right.z + 1);
    }
  }

  lemma {:induction false} SumRSymmetric(d: PairData, at: nat, a: nat, b: nat, p: Unpacked, rn: nat)
    requires WellFormed(d) && PairSymmetric(d) && at < d.natoms && a < d.nprim && b < d.nprim
    ensures SumR(d, at, a, b, p, rn) == SumR(d, at, b, a, Swap(p), rn)
  {
    if rn > 0 {
      SumRSymmetric(d, at, a, b, p, rn - 1);
      SumSSymmetric(d, at, a, b, p, rn - 1, p.left.y + p.right.y + 1);
    }
  }

  /** Swapping the two primitives swaps the halves of their unpacked key. */
  lemma KeysSwap(d: PairData, ijks: seq<Powers>, a: nat, b: nat)
    requires WellFormed(d) && d.keys == KeyMatrix(ijks)
    requires forall i :: 0 <= i < |ijks| ==> InRange(ijks[i])
    requires a < d.nprim && b < d.nprim
    ensures Unpack(d.keys[b][a]) == Swap(Unpack(d.keys[a][b]))
  {
    UnpackPackRoundTrip(ijks[b], ijks[a]);
    UnpackPackRoundTrip(ijks[a], ijks[b]);
  }

  lemma CellSumSymmetric(d: PairData, at: nat, a: nat, b: nat)
    requires WellFormed(d) && PairSymmetric(d) && at < d.natoms && a < d.nprim && b < d.nprim
    requires Unpack(d.keys[b][a]) == Swap(Unpack(d.keys[a][b]))
    ensures CellSum(d, at, a, b) == CellSum(d, at, b, a)
  {
    var p := Unpack(d.keys[a][b]);
    SumRSymmetric(d, at, a, b, p, p.left.x + p.right.x + 1);
    assert p.left.x + p.right.x + 1 == p.right.x + p.left.x + 1;
  }

  lemma CoulombSymmetricFromCells(d: PairData, at: nat, a: nat, b: nat)
    requires WellFormed(d) && at < d.natoms && a < d.nprim && b < d.nprim
    requires d.gamma[a][b] == d.gamma[b][a] && CellSum(d, at, a, b) == CellSum(d, at, b, a)
    ensures CoulombSpec(d)[at][a][b] == CoulombSpec(d)[at][b][a]
  {
  }

  /** Each nuclear-attraction matrix is symmetric when the pair data is and
      every power is below 8. */
  lemma CoulombSymmetric(d: PairData, ijks: seq<Powers>, at: nat, a: nat, b: nat)
    requires WellFormed(d) && PairSymmetric(d) && d.keys == KeyMatrix(ijks)
    requires forall i :: 0 <= i < |ijks| ==> InRange(ijks[i])
    requires at < d.natoms && a < d.nprim && b < d.nprim
    ensures CoulombSpec(d)[at][a][b] == CoulombSpec(d)[at][b][a]
  {
    KeysSwap(d, ijks, a, b);
    CellSumSymmetric(d, at, a, b);
    CoulombSymmetricFromCells(d, at, a, b);
  }

  /** The key "r,s,t,n" of `r_memory`. */
  datatype RKey = RKey(r: nat, s: nat, t: nat, n: nat)

  class Ecoeff {
    const data: PairData
    const uniqueKeys: seq<nat>
    var rMemory: map<RKey, Tensor3>
    var coulomb: Option<Tensor3>

    /** Every cached entry is the R tensor its key names. */
    ghost predicate CacheValid()
      reads this
    {
      && WellFormed(data)
      && (forall k :: k in rMemory ==> rMemory[k] == RTensor(data, k.r, k.s, k.t, k.n))
    }

    /** The R cache is sound, the groups are those of the key matrix and a
        cached nuclear attraction is the one `get_coulomb` promises. */
    ghost predicate Valid()
      reads this
    {
      && CacheValid()
      && uniqueKeys == UniqueKeys(data)
      && (coulomb.Some? ==> coulomb.value == CoulombSpec(data))
    }

    constructor (ijks: seq<Powers>, centres: seq<Vec3>, alphas: seq<real>, atompos: seq<Vec3>,
                 boys: BoysFn, ecoeff: EcoeffFn)
      requires |centres| == |ijks| && |alphas| == |ijks|
      requires |ijks| > 0
      requires PairSumsNonZero(alphas)
      ensures Valid()
      ensures data == MakePairData(ijks, centres, alphas, atompos, boys, ecoeff)
      ensures rMemory == map[] && coulomb == None
    {
      var d := MakePairData(ijks, centres, alphas, atompos, boys, ecoeff);
      data := d;
      uniqueKeys := UniqueKeys(d);
      rMemory := map[];
      coulomb := None;
    }

    /** `_access_rcoeff`: the cached tensor, if any; a hit is the R tensor. */
    function AccessRCoeff(r: nat, s: nat, t: nat, n: nat): (c: Option<Tensor3>)
      requires CacheValid()
      reads this
      ensures c.None? <==> RKey(r, s, t, n) !in rMemory
      ensures c.Some? ==> c.value == RTensor(data, r, s, t, n)
    {
      var key := RKey(r, s, t, n);
      if key in rMemory then Some(rMemory[key]) else None
    }

    /** `get_rcoeff`: the memoized recursion returns exactly R, records it
        under its key, and leaves every other entry as it was. */
    method GetRCoeff(r: int, s: int, t: int, n: nat) returns (c: Tensor3)
      requires CacheValid()
      modifies this
      decreases Measure(r, s, t)
      ensures CacheValid()
      ensures c == RTensor(data, r, s, t, n)
      ensures coulomb == old(coulomb)
      ensures forall k :: k in old(rMemory) ==> k in rMemory && rMemory[k] == old(rMemory)[k]
      ensures r < 0 || s < 0 || t < 0 ==> c == ZeroTensor3(data.natoms, data.nprim, data.nprim) && rMemory == old(rMemory)
      ensures r >= 0 && s >= 0 && t >= 0 ==> RKey(r, s, t, n) in rMemory && rMemory[RKey(r, s, t, n)] == c
      ensures r >= 0 && s >= 0 && t >= 0 && RKey(r, s, t, n) in old(rMemory) ==> rMemory == old(rMemory)
    {
      if r < 0 || s < 0 || t < 0 {
        return ZeroTensor3(data.natoms, data.nprim, data.nprim);
      }
      var cached := AccessRCoeff(r, s, t, n);
      if cached.Some? {
        return cached.value;
      }
      if r == 0 && s == 0 && t == 0 {
        c := BaseTensor(data, n);
      } else if r > 0 {
        var lower2 := GetRCoeff(r - 2, s, t, n + 1);
        var lower1 := GetRCoeff(r - 1, s, t, n + 1);
        c := StepTensor(data, 0, (r - 1) as real, lower2, lower1);
      } else if s > 0 {
        var lower2 := GetRCoeff(r, s - 2, t, n + 1);
        var lower1 := GetRCoeff(r, s - 1, t, n + 1);
        c := StepTensor(data, 1, (s - 1) as real, lower2, lower1);
      } else {
        var lower2 := GetRCoeff(r, s, t - 2, n + 1);
        var lower1 := GetRCoeff(r, s, t - 1, n + 1);
        c := StepTensor(data, 2, (t - 1) as real, lower2, lower1);
      }
      Remember(RKey(r, s, t, n), c);
    }

    /** Records a computed R tensor under its key. */
    method Remember(key: RKey, c: Tensor3)
      requires CacheValid() && c == RTensor(data, key.r, key.s, key.t, key.n)
      modifies this
      ensures CacheValid() && coulomb == old(coulomb)
      ensures rMemory == old(rMemory)[key := c]
    {
      rMemory := rMemory[key := c];
    }

    /** `get_coulomb`: every cell receives the triple sum of its key's group,
        scaled by -2 pi / gamma; the result is cached, so a second call
        returns the same tensors and computes nothing. */
    method GetCoulomb() returns (c: Tensor3)
      requires Valid()
      modifies this
      ensures Valid()
      ensures c == CoulombSpec(data)
      ensures coulomb == Some(c)
      ensures old(coulomb).Some? ==> c == old(coulomb).value && rMemory == old(rMemory)
      ensures forall k :: k in old(rMemory) ==> k in rMemory && rMemory[k] == old(rMemory)[k]
    {
      if coulomb.Some? {
        return coulomb.value;
      }
      var acc := ZeroTensor3(data.natoms, data.nprim, data.nprim);
      AccStart(data, uniqueKeys);
      var g := 0;
      while g < |uniqueKeys|
        invariant Valid() && g <= |uniqueKeys|
        invariant acc == Acc(data, uniqueKeys, g, 0, 0, 0)
        invariant forall k :: k in old(rMemory) ==> k in rMemory && rMemory[k] == old(rMemory)[k]
      {
        acc := AccumulateGroup(acc, g);
        AccStepGroup(data, uniqueKeys, g);
        g := g + 1;
      }
      UniqueKeysSpec(data);
      AccDone(data, uniqueKeys);
      c := ScaleByGamma(data, acc);
      coulomb := Some(c);
    }

    /** The r loop of `get_coulomb` for the group of key uniqueKeys[g]. */
    method AccumulateGroup(acc0: Tensor3, g: nat) returns (acc: Tensor3)
      requires Valid() && g < |uniqueKeys|
      requires acc0 == Acc(data, uniqueKeys, g, 0, 0, 0)
      modifies this
      ensures Valid()
      ensures acc == Acc(data, uniqueKeys, g, RMax(uniqueKeys[g]), 0, 0)
      ensures coulomb == old(coulomb)
      ensures forall k :: k in old(rMemory) ==> k in rMemory && rMemory[k] == old(rMemory)[k]
    {
      acc := acc0;
      var r := 0;
      while r < RMax(uniqueKeys[g])
        invariant Valid() && r <= RMax(uniqueKeys[g]) && coulomb == old(coulomb)
        invariant acc == Acc(data, uniqueKeys, g, r, 0, 0)
        invariant forall k :: k in old(rMemory) ==> k in rMemory && rMemory[k] == old(rMemory)[k]
      {
        acc := AccumulateS(acc, g, r);
        AccStepR(data, uniqueKeys, g, r);
        r := r + 1;
      }
    }

    /** The s loop of `get_coulomb`, for one r. */
    method AccumulateS(acc0: Tensor3, g: nat, r: nat) returns (acc: Tensor3)
      requires Valid() && g < |uniqueKeys|
      requires acc0 == Acc(data, uniqueKeys, g, r, 0, 0)
      modifies this
      ensures Valid()
      ensures acc == Acc(data, uniqueKeys, g, r, SMax(uniqueKeys[g]), 0)
      ensures coulomb == old(coulomb)
      ensures forall k :: k in old(rMemory) ==> k in rMemory && rMemory[k] == old(rMemory)[k]
    {
      acc := acc0;
      var s := 0;
      while s < SMax(uniqueKeys[g])
        invariant Valid() && s <= SMax(uniqueKeys[g]) && coulomb == old(coulomb)
        invariant acc == Acc(data, uniqueKeys, g, r, s, 0)
        invariant forall k :: k in old(rMemory) ==> k in rMemory && rMemory[k] == old(rMemory)[k]
      {
        acc := AccumulateT(acc, g, r, s);
        AccStepS(data, uniqueKeys, g, r, s);
        s := s + 1;
      }
    }

    /** The t loop of `get_coulomb`, for one (r, s): `coulomb[:, idx] += ...`. */
    method AccumulateT(acc0: Tensor3, g: nat, r: nat, s: nat) returns (acc: Tensor3)
      requires Valid() && g < |uniqueKeys|
      requires acc0 == Acc(data, uniqueKeys, g, r, s, 0)
      modifies this
      ensures Valid()
      ensures acc == Acc(data, uniqueKeys, g, r, s, TMax(uniqueKeys[g]))
      ensures coulomb == old(coulomb)
      ensures forall k :: k in old(rMemory) ==> k in rMemory && rMemory[k] == old(rMemory)[k]
    {
      acc := acc0;
      var t := 0;
      while t < TMax(uniqueKeys[g])
        invariant Valid() && t <= TMax(uniqueKeys[g]) && coulomb == old(coulomb)
        invariant acc == Acc(data, uniqueKeys, g, r, s, t)
        invariant forall k :: k in old(rMemory) ==> k in rMemory && rMemory[k] == old(rMemory)[k]
      {
        acc := AddTerm(acc, g, r, s, t);
        t := t + 1;
      }
    }

    /** One pass of the innermost loop body of `get_coulomb`. */
    method AddTerm(acc0: Tensor3, g: nat, r: nat, s: nat, t: nat) returns (acc: Tensor3)
      requires Valid() && g < |uniqueKeys|
      requires acc0 == Acc(data, uniqueKeys, g, r, s, t)
      modifies this
      ensures Valid()
      ensures acc == Acc(data, uniqueKeys, g, r, s, t + 1)
      ensures coulomb == old(coulomb)
      ensures forall k :: k in old(rMemory) ==> k in rMemory && rMemory[k] == old(rMemory)[k]
    {
      var rc := GetRCoeff(r, s, t, 0);
      RTensorHoldsR(data, r, s, t, 0);
      UniqueKeysSpec(data);
      AccStepT(data, uniqueKeys, g, r, s, t, rc);
      acc := AddGroupTerm(data, acc0, uniqueKeys[g], r, s, t, rc);
    }
  }
}
