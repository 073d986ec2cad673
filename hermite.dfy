/** The Hermite-Coulomb auxiliary integrals R(r, s, t, n) of the
    McMurchie-Davidson scheme for one (atom, row, column) entry, as the
    recursion in `Ecoeff.get_rcoeff` (hmolcgauss_gen.py) computes them.
    The Boys function is left uninterpreted: it is a parameter. */
module Hermite {

  datatype Vec3 = Vec3(x: real, y: real, z: real)

  /** The Boys function F_n(T) (incomplete gamma function plus a small offset). */
  type BoysFn = (nat, real) -> real

  function NormSq(v: Vec3): real
  {
    v.x * v.x + v.y * v.y + v.z * v.z
  }

  function Pow(b: real, n: nat): real
  {
    if n == 0 then 1.0 else b * Pow(b, n - 1)
  }

  /** The Boys function argument T = gamma |rcd|^2. */
  function BoysArg(gamma: real, rcd: Vec3): real
  {
    gamma * NormSq(rcd)
  }

  /** R(0, 0, 0, n) = (-2 gamma)^n F_n(gamma |rcd|^2). */
  function RBaseValue(boys: BoysFn, gamma: real, rcd: Vec3, n: nat): real
  {
    Pow(-2.0 * gamma, n) * boys(n, BoysArg(gamma, rcd))
  }

  /** One reduction step: k * lower2 + c * lower1. */
  function Lin(k: real, lower2: real, c: real, lower1: real): real
  {
    k * lower2 + c * lower1
  }

  /** Termination measure of the recursion: each recursive call lowers r + s + t,
      and an index below zero ends it. */
  function Measure(r: int, s: int, t: int): nat
  {
    if r < 0 || s < 0 || t < 0 then 0 else r + s + t + 1
  }

  /** R(r, s, t, n) for exponent sum `gamma` and displacement `rcd` of the
      Gaussian product centre from the nucleus. */
  function R(boys: BoysFn, gamma: real, rcd: Vec3, r: int, s: int, t: int, n: nat): (v: real)
    // R is odd in each displacement component: an odd order along an axis
    // where the displacement vanishes gives zero.
    ensures rcd.x == 0.0 && r % 2 == 1 ==> v == 0.0
    ensures rcd.y == 0.0 && s % 2 == 1 ==> v == 0.0
    ensures rcd.z == 0.0 && t % 2 == 1 ==> v == 0.0
    decreases Measure(r, s, t)
  {
    if r < 0 || s < 0 || t < 0 then 0.0
    else if r == 0 && s == 0 && t == 0 then RBaseValue(boys, gamma, rcd, n)
    else if r > 0 then
      var lower2, lower1 := R(boys, gamma, rcd, r - 2, s, t, n + 1), R(boys, gamma, rcd, r - 1, s, t, n + 1);
      assert rcd.x == 0.0 && r % 2 == 1 ==> lower2 == 0.0;
      Lin((r - 1) as real, lower2, rcd.x, lower1)
    else if s > 0 then
      var lower2, lower1 := R(boys, gamma, rcd, r, s - 2, t, n + 1), R(boys, gamma, rcd, r, s - 1, t, n + 1);
      assert rcd.y == 0.0 && s % 2 == 1 ==> lower2 == 0.0;
      Lin((s - 1) as real, lower2, rcd.y, lower1)
    else
      var lower2, lower1 := R(boys, gamma, rcd, r, s, t - 2, n + 1), R(boys, gamma, rcd, r, s, t - 1, n + 1);
      assert rcd.z == 0.0 && t % 2 == 1 ==> lower2 == 0.0;
      Lin((t - 1) as real, lower2, rcd.z, lower1)
  }

}
