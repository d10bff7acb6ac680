/**
 The G2 point codec of `ecp2_ZZZ.c`: a `0x04` byte followed by the four
 base-field coordinates `x.a | x.b | y.a | y.b`, each big-endian in
 `MODBYTES` bytes, and the decoder's validation pipeline.
 */
module Ecp2 {
  import opened Bytes
  import opened Wrappers
  import opened Curve

  /**
   The four coordinates `x.a | x.b | y.a | y.b` read, each from `M` bytes,
   from the `4M` bytes after the prefix.
   */
  function PointOf(c: Curve, buf: seq<byte>): G2
    requires |buf| == G2Length(c.modBytes)
  {
    var m, body := c.modBytes, buf[1..];
    G2(Fp2(FromBytes(body[..m]), FromBytes(body[m..2 * m])),
       Fp2(FromBytes(body[2 * m..3 * m]), FromBytes(body[3 * m..])))
  }

  function ReduceFp2(c: Curve, e: Fp2): (r: Fp2)
    requires Valid(c)
    ensures r.a < c.modulus && r.b < c.modulus
    ensures e.a < c.modulus && e.b < c.modulus ==> r == e
  {
    assert e.a < c.modulus && e.b < c.modulus ==> e.a % c.modulus == e.a && e.b % c.modulus == e.b by {
      if e.a < c.modulus && e.b < c.modulus {
        ModUnique(e.a, c.modulus, 0, e.a);
        ModUnique(e.b, c.modulus, 0, e.b);
      }
    }
    Fp2(e.a % c.modulus, e.b % c.modulus)
  }

  /** The point `FP_YYY_nres` stores: every coordinate reduced modulo the prime. */
  function Reduce(c: Curve, p: G2): (r: G2)
    requires Valid(c)
    ensures Reduced2(c, r)
    ensures Reduced2(c, p) ==> r == p
  {
    G2(ReduceFp2(c, p.x), ReduceFp2(c, p.y))
  }

  /** All four coordinates are at most the modulus: the range step lets them through. */
  predicate InRange(c: Curve, p: G2)
  {
    p.x.a <= c.modulus && p.x.b <= c.modulus && p.y.a <= c.modulus && p.y.b <= c.modulus
  }

  /** The four coordinate blocks of an encoding, in order. */
  function Body(c: Curve, p: G2): (r: seq<byte>)
    requires Valid(c)
    ensures |r| == 4 * c.modBytes
  {
    var q := Reduce(c, p);
    var m := c.modBytes;
    ToBytes(q.x.a, m) + ToBytes(q.x.b, m) + ToBytes(q.y.a, m) + ToBytes(q.y.b, m)
  }

  /**
   `ecp2_ZZZ_serialize`: the `0x04` byte is written by the function itself,
   and `ECP2_ZZZ_toOctet` writes the four reduced coordinates after it.
   */
  function Serialize(c: Curve, p: G2): (r: seq<byte>)
    requires Valid(c)
    ensures |r| == G2Length(c.modBytes)
    ensures r[0] == 4
    ensures PointOf(c, r) == Reduce(c, p)
  {
    var r := [4] + Body(c, p);
    assert r[1..] == Body(c, p);
    BodyRoundTrip(c, p);
    r
  }

  /** The four blocks of `Body` read back as the reduced coordinates. */
  lemma BodyRoundTrip(c: Curve, p: G2)
    requires Valid(c)
    ensures var q, m, b := Reduce(c, p), c.modBytes, Body(c, p);
            FromBytes(b[..m]) == q.x.a && FromBytes(b[m..2 * m]) == q.x.b &&
            FromBytes(b[2 * m..3 * m]) == q.y.a && FromBytes(b[3 * m..]) == q.y.b
  {
    var q, m := Reduce(c, p), c.modBytes;
    var b := Body(c, p);
    Blocks4(ToBytes(q.x.a, m), ToBytes(q.x.b, m), ToBytes(q.y.a, m), ToBytes(q.y.b, m));
    assert FromBytes(b[..m]) == q.x.a by {
      FromToBytesFits(q.x.a, m);
    }
    assert FromBytes(b[m..2 * m]) == q.x.b by {
      FromToBytesFits(q.x.b, m);
    }
    assert FromBytes(b[2 * m..3 * m]) == q.y.a by {
      FromToBytesFits(q.y.a, m);
    }
    assert FromBytes(b[3 * m..]) == q.y.b by {
      FromToBytesFits(q.y.b, m);
    }
  }

  /**
   `ecp2_ZZZ_deserialize`: `-2` unless the first byte is `0x04`; otherwise
   `-1` when any of the four coordinates is strictly greater than the
   modulus, when the reduced point is off the curve, is the identity, or is
   NOT sent to the identity by the group order.
   */
  function Deserialize(c: Curve, buf: seq<byte>): (r: Result<G2, Failure>)
    requires Valid(c)
    requires |buf| == G2Length(c.modBytes)
    ensures r.Err? && r.error == BadFormat <==> buf[0] != 4
    ensures r.Ok? <==>
              buf[0] == 4 && InRange(c, PointOf(c, buf)) && InGroup2(c, Reduce(c, PointOf(c, buf)))
    ensures r.Ok? ==> r.value == Reduce(c, PointOf(c, buf))
  {
    if buf[0] != 4 then Err(BadFormat)
    else
      var raw := PointOf(c, buf);
      if raw.x.a > c.modulus || raw.x.b > c.modulus || raw.y.a > c.modulus || raw.y.b > c.modulus then
        Err(BadPoint)
      else
        var p := Reduce(c, raw);
        if !c.g2OnCurve(p) then Err(BadPoint)
        else if c.g2IsInf(p) then Err(BadPoint)
        else if !c.g2IsInf(c.g2Mul(p, c.order)) then Err(BadPoint)
        else Ok(p)
  }

  /**
   Encoding any point and decoding it gives back the stored (reduced)
   point exactly when that point passes the G2 test, and `-1` otherwise.
   */
  lemma SerializeThenDeserialize(c: Curve, p: G2)
    requires Valid(c)
    ensures Deserialize(c, Serialize(c, p)) ==
              if InGroup2(c, Reduce(c, p)) then Ok(Reduce(c, p)) else Err(BadPoint)
  {
    var q := Reduce(c, p);
    assert Reduce(c, q) == q;
  }

  /** A buffer with the right prefix is the encoding of its own four coordinates. */
  lemma BufferOfCoordinates(c: Curve, buf: seq<byte>)
    requires |buf| == G2Length(c.modBytes)
    requires buf[0] == 4
    ensures var m, p := c.modBytes, PointOf(c, buf);
            buf == [4] + (ToBytes(p.x.a, m) + ToBytes(p.x.b, m) + ToBytes(p.y.a, m) + ToBytes(p.y.b, m))
  {
    var body := buf[1..];
    BlocksOfNumbers(body, c.modBytes);
    assert buf == [4] + body;
  }

  /** Re-encoding the four numbers read from `4m` bytes gives the bytes back. */
  lemma BlocksOfNumbers(b: seq<byte>, m: nat)
    requires |b| == 4 * m
    ensures b == ToBytes(FromBytes(b[..m]), m) + ToBytes(FromBytes(b[m..2 * m]), m) +
                 ToBytes(FromBytes(b[2 * m..3 * m]), m) + ToBytes(FromBytes(b[3 * m..]), m)
  {
    ToFromBytes(b[..m]);
    ToFromBytes(b[m..2 * m]);
    ToFromBytes(b[2 * m..3 * m]);
    ToFromBytes(b[3 * m..]);
    FourBlocks(b, m);
  }

  /** A sequence of `4m` elements is its four quarters in order. */
  lemma FourBlocks<T>(b: seq<T>, m: nat)
    requires |b| == 4 * m
    ensures b == b[..m] + b[m..2 * m] + b[2 * m..3 * m] + b[3 * m..]
  {
    assert b[2 * m..] == b[2 * m..3 * m] + b[3 * m..];
    assert b[m..] == b[m..2 * m] + b[2 * m..];
    assert b == b[..m] + b[m..];
  }

  /**
   A buffer that decodes is reproduced by encoding its point exactly when
   no coordinate was written as the modulus itself.
   */
  lemma DeserializeThenSerialize(c: Curve, buf: seq<byte>)
    requires Valid(c)
    requires |buf| == G2Length(c.modBytes)
    ensures Deserialize(c, buf).Ok? ==>
              (Serialize(c, Deserialize(c, buf).value) == buf <==> Reduced2(c, PointOf(c, buf)))
  {
    if Deserialize(c, buf).Ok? {
      var p := PointOf(c, buf);
      var v := Deserialize(c, buf).value;
      var out := Serialize(c, v);
      if Reduced2(c, p) {
        BufferOfCoordinates(c, buf);
      } else {
        assert PointOf(c, out) == v;
      }
    }
  }

  /** The G2 generator survives an encode/decode round trip unchanged. */
  lemma GeneratorRoundTrip(c: Curve)
    requires Trusted(c)
    ensures Deserialize(c, Serialize(c, c.g2Generator)) == Ok(c.g2Generator)
  {
    SerializeThenDeserialize(c, c.g2Generator);
  }
}
