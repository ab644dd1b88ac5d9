/** The constants of Curve25519 (section 4.1 of RFC 7748) as the source stores them. */
module Curve25519 {
  import opened PrimeField
  import opened Elligator2
  import opened ElligatorTextbook
  import opened CurvePoints

  const P: int := 0x7fffffffffffffffffffffffffffffffffffffffffffffffffffffffffffffed
  const C1: int := 0xffffffffffffffffffffffffffffffffffffffffffffffffffffffffffffffe
  const C2: int := 0x2b8324804fc1df0b2b4d00993dfbd7a72f431806ad2fe478c4ee1b274a0ea0b1
  const SQRT_M1: int := 0x547cdb7fb03e20f4d4b2ff66c2042858d0bce7f952d01b873b11e4d8b5f15f3d
  const C4: nat := 0xffffffffffffffffffffffffffffffffffffffffffffffffffffffffffffffd
  const J: int := 486662

  const PARAMS: Params := Params(P, J, C2, SQRT_M1, C4)

  /** Of the parameters only primality of 2^255 - 19 is taken on trust. */
  lemma ConstantsGood()
    requires Prime(P)
    ensures Good(PARAMS) && 8 * C1 == P + 3
    ensures P == 0x8000000000000000000000000000000000000000000000000000000000000000 - 19
  {
  }

  /** Every field element maps to a curve point, identically by both maps. */
  lemma MapToCurve25519(u: int)
    requires Prime(P)
    ensures MapToCurveG2(PARAMS, u) == MapToCurveElligator2(PARAMS, u)
    ensures MapToCurveG2(PARAMS, u).Some? && CheckPoint(PARAMS, MapToCurveG2(PARAMS, u).value)
    ensures var q := MapToCurveG2(PARAMS, u).value;
      (q.y * q.y) % P == (q.x * q.x * q.x + 486662 * (q.x * q.x) + q.x) % P
  {
    ConstantsGood();
    MapsAgree(PARAMS, u);
    MapToCurveG2OnCurve(PARAMS, u);
    CheckPointMeaning(PARAMS, MapToCurveG2(PARAMS, u).value);
  }

  /** The hash is the x-coordinate of a curve point, namely the affine [8](Q0 + Q1). */
  lemma HashToCurve25519(u0: int, u1: int)
    requires Prime(P)
    ensures HashToCurve(PARAMS, u0, u1) == AbscissaOf(AffineHash(PARAMS, u0, u1))
    ensures AffineHash(PARAMS, u0, u1).Some? ==> CheckPoint(PARAMS, AffineHash(PARAMS, u0, u1).value)
    ensures AffineHash(PARAMS, u0, u1).Some? ==> IsHash(PARAMS, u0, u1, AffineHash(PARAMS, u0, u1).value)
  {
    ConstantsGood();
    HashToCurveAgrees(PARAMS, u0, u1);
    if AffineHash(PARAMS, u0, u1).Some? {
      CheckPointMeaning(PARAMS, AffineHash(PARAMS, u0, u1).value);
    }
  }
}
