/**
 The group public key of `group_public_key_ZZZ.c`: the two G2 points
 `X | Y`, each in the G2 encoding.
 */
module GroupKey {
  import opened Bytes
  import opened Wrappers
  import opened Curve
  import Ecp2

  datatype GroupPublicKey = GroupPublicKey(x: G2, y: G2)

  /** `ECDAA_GROUP_PUBLIC_KEY_ZZZ_LENGTH`. */
  function Length(c: Curve): nat
  {
    2 * G2Length(c.modBytes)
  }

  /** `ecdaa_group_public_key_ZZZ_serialize`: `X` then `Y`. */
  function Serialize(c: Curve, gpk: GroupPublicKey): (r: seq<byte>)
    requires Valid(c)
    ensures |r| == Length(c)
  {
    Ecp2.Serialize(c, gpk.x) + Ecp2.Serialize(c, gpk.y)
  }

  /** What `ecdaa_group_public_key_ZZZ_deserialize` leaves: its return code and both decoded halves. */
  datatype Decoded = Decoded(code: int, x: Result<G2, Failure>, y: Result<G2, Failure>)

  /**
   `ecdaa_group_public_key_ZZZ_deserialize`: both halves are decoded, the
   second even when the first fails, and any failure, whether of format or
   of point, gives `-1`; the `-2` the header documents is never returned.
   */
  function Deserialize(c: Curve, buf: seq<byte>): (d: Decoded)
    requires Valid(c)
    requires |buf| == Length(c)
    ensures d.x == Ecp2.Deserialize(c, buf[..G2Length(c.modBytes)])
    ensures d.y == Ecp2.Deserialize(c, buf[G2Length(c.modBytes)..])
    ensures d.code == 0 <==> d.x.Ok? && d.y.Ok?
    ensures d.code == 0 || d.code == -1
  {
    var half := G2Length(c.modBytes);
    var x := Ecp2.Deserialize(c, buf[..half]);
    var y := Ecp2.Deserialize(c, buf[half..]);
    var code := if x.Err? then -1 else 0;
    var code := if y.Err? then -1 else code;
    Decoded(code, x, y)
  }

  /** Both points of a key that passes the G2 test come back unchanged with code `0`. */
  lemma RoundTrip(c: Curve, gpk: GroupPublicKey)
    requires Valid(c)
    requires Reduced2(c, gpk.x) && InGroup2(c, gpk.x)
    requires Reduced2(c, gpk.y) && InGroup2(c, gpk.y)
    ensures Deserialize(c, Serialize(c, gpk)) == Decoded(0, Ok(gpk.x), Ok(gpk.y))
  {
    var bx, bY := Ecp2.Serialize(c, gpk.x), Ecp2.Serialize(c, gpk.y);
    assert (bx + bY)[..|bx|] == bx && (bx + bY)[|bx|..] == bY;
    Ecp2.SerializeThenDeserialize(c, gpk.x);
    Ecp2.SerializeThenDeserialize(c, gpk.y);
  }

  /** A key made of the G2 generator twice round-trips. */
  lemma GeneratorsRoundTrip(c: Curve)
    requires Trusted(c)
    ensures Deserialize(c, Serialize(c, GroupPublicKey(c.g2Generator, c.g2Generator))) ==
              Decoded(0, Ok(c.g2Generator), Ok(c.g2Generator))
  {
    RoundTrip(c, GroupPublicKey(c.g2Generator, c.g2Generator));
  }

  /**
   A malformed prefix on either half is reported as `-1`, like a bad
   point, although the point decoder itself reported `-2`.
   */
  lemma FormatErrorReportedAsBadPoint(c: Curve, buf: seq<byte>)
    requires Valid(c)
    requires |buf| == Length(c)
    requires buf[0] != 4 || buf[G2Length(c.modBytes)] != 4
    ensures Deserialize(c, buf).code == -1
    ensures Status(Deserialize(c, buf).x) == -2 || Status(Deserialize(c, buf).y) == -2
  {
    var half := G2Length(c.modBytes);
    assert buf[..half][0] == buf[0];
    assert buf[half..][0] == buf[half];
  }

  /**
   A first half encoding a point on the curve, not the identity, but not
   killed by the group order is a point outside G2, the case documented as
   `-2`; the key decoder reports `-1`, as the point decoder did.
   */
  lemma SubgroupFailureReportedAsBadPoint(c: Curve, p: G2, second: seq<byte>)
    requires Valid(c) && Reduced2(c, p)
    requires |second| == G2Length(c.modBytes)
    requires c.g2OnCurve(p) && !c.g2IsInf(p) && !c.g2IsInf(c.g2Mul(p, c.order))
    ensures Deserialize(c, Ecp2.Serialize(c, p) + second).code == -1
    ensures Status(Deserialize(c, Ecp2.Serialize(c, p) + second).x) == -1
  {
  }
}
