/** Flat integer keys for pairs of Cartesian powers (hmolcgauss_gen.py,
    `Ecoeff.__init__` and `Ecoeff._unpack_ijk_flat_value`).
    Per axis, the pair (left, right) becomes `left * 8 + right`; the three
    axis codes are then packed in base 64, x most significant. */
module Keys {

  const MaxBasis: nat := 8
  const MaxIjkFlat: nat := 64

  /** The powers (i, j, k) of x, y and z of one primitive Gaussian. */
  datatype Powers = Powers(x: nat, y: nat, z: nat)

  /** The powers the packing is designed for: each below `MaxBasis`. */
  predicate InRange(p: Powers)
  {
    p.x < MaxBasis && p.y < MaxBasis && p.z < MaxBasis
  }

  /** (k, l, m) are the left powers and (u, v, w) the right powers. */
  datatype Unpacked = Unpacked(left: Powers, right: Powers)

  function PairCode(left: nat, right: nat): nat
  {
    left * MaxBasis + right
  }

  function PackKey(left: Powers, right: Powers): nat
  {
    PairCode(left.x, right.x) * MaxIjkFlat * MaxIjkFlat
      + PairCode(left.y, right.y) * MaxIjkFlat
      + PairCode(left.z, right.z)
  }

  function Unpack(flat: nat): Unpacked
  {
    var pair2 := flat % MaxIjkFlat;
    var pair1 := (flat / MaxIjkFlat) % MaxIjkFlat;
    var pair0 := (flat / MaxIjkFlat) / MaxIjkFlat;
    Unpacked(Powers(pair0 / MaxBasis, pair1 / MaxBasis, pair2 / MaxBasis),
             Powers(pair0 % MaxBasis, pair1 % MaxBasis, pair2 % MaxBasis))
  }

  /** The key of matrix cell (a, b): `ijk_left` broadcasts along rows, so the
      left powers are those of primitive b and the right powers those of a. */
  function KeyMatrix(ijks: seq<Powers>): (keys: seq<seq<nat>>)
    ensures |keys| == |ijks|
    ensures forall a :: 0 <= a < |ijks| ==> |keys[a]| == |ijks|
    ensures forall a, b :: 0 <= a < |ijks| && 0 <= b < |ijks| ==> keys[a][b] == PackKey(ijks[b], ijks[a])
    ensures forall a, b :: 0 <= a < |ijks| && 0 <= b < |ijks| && InRange(ijks[a]) && InRange(ijks[b]) ==>
      Unpack(keys[a][b]) == Unpacked(ijks[b], ijks[a])
  {
    var keys := seq(|ijks|, a requires 0 <= a < |ijks| => seq(|ijks|, b requires 0 <= b < |ijks| => PackKey(ijks[b], ijks[a])));
    forall a, b | 0 <= a < |ijks| && 0 <= b < |ijks| && InRange(ijks[a]) && InRange(ijks[b])
      ensures Unpack(keys[a][b]) == Unpacked(ijks[b], ijks[a])
    {
      UnpackPackRoundTrip(ijks[b], ijks[a]);
    }
    keys
  }

  lemma PairCodeRoundTrip(left: nat, right: nat)
    requires right < MaxBasis
    ensures PairCode(left, right) / MaxBasis == left
    ensures PairCode(left, right) % MaxBasis == right
  {
  }

  lemma Base64Digits(p0: nat, p1: nat, p2: nat)
    requires p1 < MaxIjkFlat && p2 < MaxIjkFlat
    ensures (p0 * 4096 + p1 * 64 + p2) % 64 == p2
    ensures ((p0 * 4096 + p1 * 64 + p2) / 64) % 64 == p1
    ensures ((p0 * 4096 + p1 * 64 + p2) / 64) / 64 == p0
  {
    var n := p0 * 4096 + p1 * 64 + p2;
    assert n == (p0 * 64 + p1) * 64 + p2;
    assert n / 64 == p0 * 64 + p1;
  }

  /** Unpacking a packed key gives back both triples of powers. */
  lemma UnpackPackRoundTrip(left: Powers, right: Powers)
    requires InRange(left) && InRange(right)
    ensures Unpack(PackKey(left, right)) == Unpacked(left, right)
  {
    var c0, c1, c2 := PairCode(left.x, right.x), PairCode(left.y, right.y), PairCode(left.z, right.z);
    PairCodeRoundTrip(left.x, right.x);
    PairCodeRoundTrip(left.y, right.y);
    PairCodeRoundTrip(left.z, right.z);
    assert PackKey(left, right) == c0 * 4096 + c1 * 64 + c2;
    Base64Digits(c0, c1, c2);
  }

  /** Every key below 64^3 is the packing of the powers it unpacks to. */
  lemma PackUnpackRoundTrip(flat: nat)
    requires flat < MaxIjkFlat * MaxIjkFlat * MaxIjkFlat
    ensures InRange(Unpack(flat).left) && InRange(Unpack(flat).right)
    ensures PackKey(Unpack(flat).left, Unpack(flat).right) == flat
  {
    var pair2 := flat % 64;
    var q := flat / 64;
    var pair1 := q % 64;
    var pair0 := q / 64;
    assert flat == q * 64 + pair2;
    assert q == pair0 * 64 + pair1;
    assert pair0 < 64;
    assert flat == pair0 * 4096 + pair1 * 64 + pair2;
    assert pair0 == (pair0 / 8) * 8 + pair0 % 8;
    assert pair1 == (pair1 / 8) * 8 + pair1 % 8;
    assert pair2 == (pair2 / 8) * 8 + pair2 % 8;
  }

  /** Distinct pairs of in-range powers never share a key, so one key names
      exactly one (left, right) pair of powers. */
  lemma PackKeyInjective(l1: Powers, r1: Powers, l2: Powers, r2: Powers)
    requires InRange(l1) && InRange(r1) && InRange(l2) && InRange(r2)
    ensures PackKey(l1, r1) == PackKey(l2, r2) <==> l1 == l2 && r1 == r2
  {
    UnpackPackRoundTrip(l1, r1);
    UnpackPackRoundTrip(l2, r2);
  }

  /** Beyond the cap the packing aliases: powers (1|8) and (2|0) on x share a key. */
  lemma PackKeyAliasesBeyondCap()
    ensures PackKey(Powers(1, 0, 0), Powers(8, 0, 0)) == PackKey(Powers(2, 0, 0), Powers(0, 0, 0))
  {
  }
}
