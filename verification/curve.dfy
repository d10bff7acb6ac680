/**
 The pairing-friendly curve as the wire layer sees it: field and group
 constants, the two generators, and the AMCL point arithmetic and pairing
 as uninterpreted functions carried in a record. Points are affine
 coordinate pairs; G2 coordinates are elements of the quadratic extension
 field, written as two base-field integers.
 */
module Curve {
  import opened Bytes
  import opened Wrappers

  datatype G1 = G1(x: nat, y: nat)
  datatype Fp2 = Fp2(a: nat, b: nat)
  datatype G2 = G2(x: Fp2, y: Fp2)
  /** An element of the pairing target group, compared only for equality. */
  datatype Gt = Gt(coefficients: seq<nat>)

  /**
   One build of the library for one curve (`ZZZ`): `modBytes` is
   `MODBYTES_XXX`, `modulus` the field prime `Modulus_ZZZ`, `order` the
   group order `CURVE_Order_ZZZ` and `cofactor` `CURVE_Cof_ZZZ`; the
   functions stand for `ECP_ZZZ_set`'s on-curve test, `ECP_ZZZ_isinf`,
   `ECP_ZZZ_mul`, `ECP_ZZZ_add` followed by `ECP_ZZZ_affine`, their G2
   counterparts, and `compute_pairing_ZZZ`.
   */
  datatype Curve = Curve(
    modBytes: nat,
    modulus: nat,
    order: nat,
    cofactor: nat,
    g1Generator: G1,
    g2Generator: G2,
    g1OnCurve: G1 -> bool,
    g1IsInf: G1 -> bool,
    g1Mul: (G1, nat) -> G1,
    g1Add: (G1, G1) -> G1,
    g2OnCurve: G2 -> bool,
    g2IsInf: G2 -> bool,
    g2Mul: (G2, nat) -> G2,
    pairing: (G1, G2) -> Gt)

  /** `ECP_ZZZ_LENGTH`: the `0x04` prefix and two coordinates. */
  function G1Length(modBytes: nat): nat
  {
    2 * modBytes + 1
  }

  /** `ECP2_ZZZ_LENGTH`: the `0x04` prefix and four base-field coordinates. */
  function G2Length(modBytes: nat): nat
  {
    4 * modBytes + 1
  }

  /** Every field element is below the modulus, and the modulus fits in `modBytes` bytes. */
  predicate Valid(c: Curve)
  {
    c.modBytes > 0 && 0 < c.modulus < Pow256(c.modBytes)
  }

  /** Coordinates as a field element stores them: below the modulus. */
  predicate Reduced1(c: Curve, p: G1)
  {
    p.x < c.modulus && p.y < c.modulus
  }

  predicate Reduced2(c: Curve, p: G2)
  {
    p.x.a < c.modulus && p.x.b < c.modulus && p.y.a < c.modulus && p.y.b < c.modulus
  }

  /**
   The G1 membership test of `ecp_ZZZ_deserialize`: on the curve, not the
   identity, and not sent to the identity by the cofactor.
   */
  predicate InGroup1(c: Curve, p: G1)
  {
    c.g1OnCurve(p) && !c.g1IsInf(p) && !c.g1IsInf(c.g1Mul(p, c.cofactor))
  }

  /**
   The G2 membership test of `ecp2_ZZZ_deserialize`: on the curve, not the
   identity, and sent to the identity by the group order.
   */
  predicate InGroup2(c: Curve, p: G2)
  {
    c.g2OnCurve(p) && !c.g2IsInf(p) && c.g2IsInf(c.g2Mul(p, c.order))
  }

  /**
   The curve constants are taken on trust: both generators are stored
   reduced and pass their own group's membership test.
   */
  predicate Trusted(c: Curve)
  {
    Valid(c) &&
    Reduced1(c, c.g1Generator) && InGroup1(c, c.g1Generator) &&
    Reduced2(c, c.g2Generator) && InGroup2(c, c.g2Generator)
  }

  /** The two ways a point decoder fails: `-2` for a bad encoding, `-1` for a bad point. */
  datatype Failure = BadFormat | BadPoint

  function Code(f: Failure): int
  {
    match f
    case BadFormat => -2
    case BadPoint => -1
  }

  /** The integer a point decoder returns for an outcome: `0`, `-1` or `-2`. */
  function Status<T>(r: Result<T, Failure>): (code: int)
    ensures code == 0 <==> r.Ok?
    ensures code == -2 <==> r.Err? && r.error == BadFormat
    ensures code == -1 <==> r.Err? && r.error == BadPoint
  {
    if r.Ok? then 0 else Code(r.error)
  }
}
