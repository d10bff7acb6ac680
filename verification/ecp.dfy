/**
 The G1 point codec of `ecp_ZZZ.c`: the uncompressed encoding
 `0x04 | x | y` of section 2.3.3 of SEC 1, with each coordinate written
 big-endian in `MODBYTES` bytes, and the decoder's validation pipeline,
 whose steps the source attributes to section 5.2.2 of ANSI X9.62.
 */
module Ecp {
  import opened Bytes
  import opened Wrappers
  import opened Curve

  /** The `x` coordinate as read from bytes `[1, 1 + M)`. */
  function XOf(c: Curve, buf: seq<byte>): nat
    requires |buf| == G1Length(c.modBytes)
  {
    FromBytes(buf[1..1 + c.modBytes])
  }

  /** The `y` coordinate as read from bytes `[1 + M, 1 + 2M)`. */
  function YOf(c: Curve, buf: seq<byte>): nat
    requires |buf| == G1Length(c.modBytes)
  {
    FromBytes(buf[1 + c.modBytes..])
  }

  /** The point a field element representation stores: coordinates reduced modulo the prime. */
  function Reduce(c: Curve, p: G1): (r: G1)
    requires Valid(c)
    ensures Reduced1(c, r)
    ensures Reduced1(c, p) ==> r == p
  {
    assert Reduced1(c, p) ==> p.x % c.modulus == p.x && p.y % c.modulus == p.y by {
      if Reduced1(c, p) {
        ModUnique(p.x, c.modulus, 0, p.x);
        ModUnique(p.y, c.modulus, 0, p.y);
      }
    }
    G1(p.x % c.modulus, p.y % c.modulus)
  }

  /** `ecp_ZZZ_serialize`: `ECP_ZZZ_toOctet` writes the prefix and both reduced coordinates. */
  function Serialize(c: Curve, p: G1): (r: seq<byte>)
    requires Valid(c)
    ensures |r| == G1Length(c.modBytes)
    ensures r[0] == 4
    ensures XOf(c, r) == Reduce(c, p).x && YOf(c, r) == Reduce(c, p).y
  {
    var m := c.modBytes;
    var xs := ToBytes(p.x % c.modulus, m);
    var ys := ToBytes(p.y % c.modulus, m);
    FromToBytesFits(p.x % c.modulus, m);
    FromToBytesFits(p.y % c.modulus, m);
    assert ([4] + xs + ys)[1..1 + m] == xs;
    assert ([4] + xs + ys)[1 + m..] == ys;
    [4] + xs + ys
  }

  /**
   `ecp_ZZZ_deserialize`: `-2` unless the first byte is `0x04`; otherwise
   `-1` when a coordinate is strictly greater than the modulus (one equal to
   it passes, the comparison being `1 == BIG_comp`), when the point, with
   its coordinates reduced as `ECP_ZZZ_set` stores them, is off the curve,
   is the identity, or is sent to the identity by the cofactor.
   */
  function Deserialize(c: Curve, buf: seq<byte>): (r: Result<G1, Failure>)
    requires Valid(c)
    requires |buf| == G1Length(c.modBytes)
    ensures r.Err? && r.error == BadFormat <==> buf[0] != 4
    ensures r.Ok? <==>
              buf[0] == 4 && XOf(c, buf) <= c.modulus && YOf(c, buf) <= c.modulus &&
              InGroup1(c, Reduce(c, G1(XOf(c, buf), YOf(c, buf))))
    ensures r.Ok? ==> r.value == Reduce(c, G1(XOf(c, buf), YOf(c, buf)))
  {
    if buf[0] != 4 then Err(BadFormat)
    else
      var x := XOf(c, buf);
      var y := YOf(c, buf);
      if x > c.modulus || y > c.modulus then Err(BadPoint)
      else
        var p := G1(x % c.modulus, y % c.modulus);
        if !c.g1OnCurve(p) then Err(BadPoint)
        else if c.g1IsInf(p) then Err(BadPoint)
        else if c.g1IsInf(c.g1Mul(p, c.cofactor)) then Err(BadPoint)
        else Ok(p)
  }

  /**
   Encoding any point and decoding it gives back the stored (reduced)
   point exactly when that point passes the group test, and `-1` otherwise.
   */
  lemma SerializeThenDeserialize(c: Curve, p: G1)
    requires Valid(c)
    ensures Deserialize(c, Serialize(c, p)) ==
              if InGroup1(c, Reduce(c, p)) then Ok(Reduce(c, p)) else Err(BadPoint)
  {
    var q := Reduce(c, p);
    assert Reduce(c, G1(q.x, q.y)) == q;
  }

  /**
   A buffer that decodes is reproduced by encoding its point exactly when
   neither coordinate was written as the modulus itself.
   */
  lemma DeserializeThenSerialize(c: Curve, buf: seq<byte>)
    requires Valid(c)
    requires |buf| == G1Length(c.modBytes)
    requires Deserialize(c, buf).Ok?
    ensures Serialize(c, Deserialize(c, buf).value) == buf <==>
              XOf(c, buf) < c.modulus && YOf(c, buf) < c.modulus
  {
    var m := c.modBytes;
    var p := Deserialize(c, buf).value;
    if XOf(c, buf) < c.modulus && YOf(c, buf) < c.modulus {
      assert p == G1(XOf(c, buf), YOf(c, buf));
      ToFromBytes(buf[1..1 + m]);
      ToFromBytes(buf[1 + m..]);
      assert buf == [4] + buf[1..1 + m] + buf[1 + m..];
    }
  }

  /**
   A coordinate equal to the modulus is accepted as an alias of `0`: the two
   distinct encodings below always decode to the same outcome.
   */
  lemma ModulusAliasesZero(c: Curve, y: nat)
    requires Valid(c)
    ensures var m := c.modBytes;
            var high := [4] + ToBytes(c.modulus, m) + ToBytes(y, m);
            var low := [4] + ToBytes(0, m) + ToBytes(y, m);
            high != low && Deserialize(c, high) == Deserialize(c, low)
  {
    var m := c.modBytes;
    var high := [4] + ToBytes(c.modulus, m) + ToBytes(y, m);
    var low := [4] + ToBytes(0, m) + ToBytes(y, m);
    assert XOf(c, high) == c.modulus by {
      assert high[1..1 + m] == ToBytes(c.modulus, m);
      FromToBytesFits(c.modulus, m);
    }
    assert XOf(c, low) == 0 by {
      assert low[1..1 + m] == ToBytes(0, m);
      FromToBytesFits(0, m);
    }
    assert YOf(c, high) == YOf(c, low) by {
      assert high[1 + m..] == ToBytes(y, m) == low[1 + m..];
    }
    assert c.modulus % c.modulus == 0 % c.modulus;
  }

  /** The generator survives an encode/decode round trip unchanged. */
  lemma GeneratorRoundTrip(c: Curve)
    requires Trusted(c)
    ensures Deserialize(c, Serialize(c, c.g1Generator)) == Ok(c.g1Generator)
  {
    SerializeThenDeserialize(c, c.g1Generator);
  }
}
