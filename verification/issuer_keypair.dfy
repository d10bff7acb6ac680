/**
 The issuer key pair of `issuer_keypair_ZZZ.c`. The public key is the
 group public key with a proof `(c, sx, sy)` of knowledge of its two
 discrete logarithms, encoded `gpk | c | sx | sy`; the secret key is the
 two bignums `x | y`.
 */
module IssuerKeys {
  import opened Bytes
  import opened Wrappers
  import opened Curve
  import opened Schnorr
  import GroupKey

  datatype IssuerPublicKey = IssuerPublicKey(gpk: GroupKey.GroupPublicKey, c: nat, sx: nat, sy: nat)
  datatype IssuerSecretKey = IssuerSecretKey(x: nat, y: nat)

  /** `ECDAA_ISSUER_PUBLIC_KEY_ZZZ_LENGTH`. */
  function PublicKeyLength(c: Curve): nat
  {
    GroupKey.Length(c) + 3 * c.modBytes
  }

  /** `ECDAA_ISSUER_SECRET_KEY_ZZZ_LENGTH`. */
  function SecretKeyLength(c: Curve): nat
  {
    2 * c.modBytes
  }

  /** `ecdaa_issuer_public_key_ZZZ_serialize`: the group key, then `c`, `sx`, `sy`. */
  function Serialize(c: Curve, ipk: IssuerPublicKey): (r: seq<byte>)
    requires Valid(c)
    ensures |r| == PublicKeyLength(c)
  {
    GroupKey.Serialize(c, ipk.gpk) + Fields3(Triple(ipk.c, ipk.sx, ipk.sy), c.modBytes)
  }

  /** `ecdaa_issuer_public_key_ZZZ_validate`: `0` when the proof checks, else `-1`. */
  function Validate(v: Verifiers, ipk: IssuerPublicKey): (code: int)
    ensures code == 0 <==> v.issuerVerify(ipk.c, ipk.sx, ipk.sy, Ok(ipk.gpk.x), Ok(ipk.gpk.y))
    ensures code == 0 || code == -1
  {
    if v.issuerVerify(ipk.c, ipk.sx, ipk.sy, Ok(ipk.gpk.x), Ok(ipk.gpk.y)) then 0 else -1
  }

  /** What the public key decoder leaves: its code, the group key as decoded, and the three bignums. */
  datatype Decoded = Decoded(code: int, gpk: GroupKey.Decoded, c: nat, sx: nat, sy: nat)

  /** Whether the proof checks against the group key halves as decoded. */
  predicate ProofChecks(v: Verifiers, d: Decoded)
  {
    v.issuerVerify(d.c, d.sx, d.sy, d.gpk.x, d.gpk.y)
  }

  /**
   `ecdaa_issuer_public_key_ZZZ_deserialize`: a group key failure sets
   `-1`, the three bignums are read regardless, and the proof is then
   always checked; its failure sets `-2`, overriding the `-1`.
   */
  function Deserialize(c: Curve, v: Verifiers, buf: seq<byte>): (d: Decoded)
    requires Valid(c)
    requires |buf| == PublicKeyLength(c)
    ensures var g, m := GroupKey.Length(c), c.modBytes;
            d.gpk == GroupKey.Deserialize(c, buf[..g]) &&
            d.c == FromBytes(buf[g..g + m]) && d.sx == FromBytes(buf[g + m..g + 2 * m]) &&
            d.sy == FromBytes(buf[g + 2 * m..])
    ensures d.code == -2 <==> !ProofChecks(v, d)
    ensures d.code == -1 <==> ProofChecks(v, d) && d.gpk.code != 0
    ensures d.code == 0 <==> ProofChecks(v, d) && d.gpk.code == 0
  {
    var g, m := GroupKey.Length(c), c.modBytes;
    var gpk := GroupKey.Deserialize(c, buf[..g]);
    var code := if gpk.code != 0 then -1 else 0;
    var cc, sx, sy := FromBytes(buf[g..g + m]), FromBytes(buf[g + m..g + 2 * m]), FromBytes(buf[g + 2 * m..]);
    var code := if !v.issuerVerify(cc, sx, sy, gpk.x, gpk.y) then -2 else code;
    Decoded(code, gpk, cc, sx, sy)
  }

  /**
   A well-formed key with a checking proof decodes with code `0`, and a
   key whose proof fails gives `-2` whether or not its group key decodes.
   */
  lemma RoundTrip(c: Curve, v: Verifiers, ipk: IssuerPublicKey)
    requires Valid(c)
    requires Reduced2(c, ipk.gpk.x) && InGroup2(c, ipk.gpk.x)
    requires Reduced2(c, ipk.gpk.y) && InGroup2(c, ipk.gpk.y)
    requires ipk.c < Pow256(c.modBytes) && ipk.sx < Pow256(c.modBytes) && ipk.sy < Pow256(c.modBytes)
    ensures var d := Deserialize(c, v, Serialize(c, ipk));
            d.gpk == GroupKey.Decoded(0, Ok(ipk.gpk.x), Ok(ipk.gpk.y)) &&
            d.c == ipk.c && d.sx == ipk.sx && d.sy == ipk.sy &&
            d.code == (if Validate(v, ipk) == 0 then 0 else -2)
  {
    var m := c.modBytes;
    var t := Triple(ipk.c, ipk.sx, ipk.sy);
    GroupKey.RoundTrip(c, ipk.gpk);
    assert ReadFields3(Fields3(t, m), m) == t by {
      Fields3RoundTrip(t, m);
      ModOfSmaller(ipk.c, Pow256(m));
      ModOfSmaller(ipk.sx, Pow256(m));
      ModOfSmaller(ipk.sy, Pow256(m));
    }
    DecodeOfParts(c, v, GroupKey.Serialize(c, ipk.gpk), Fields3(t, m));
  }

  /**
   The decoder applied to a group key encoding followed by three fields
   reports what the group key decoder and the field reads give.
   */
  lemma DecodeOfParts(c: Curve, v: Verifiers, bg: seq<byte>, bf: seq<byte>)
    requires Valid(c)
    requires |bg| == GroupKey.Length(c) && |bf| == 3 * c.modBytes
    ensures var d, gpk, t := Deserialize(c, v, bg + bf), GroupKey.Deserialize(c, bg), ReadFields3(bf, c.modBytes);
            d.gpk == gpk && d.c == t.first && d.sx == t.second && d.sy == t.third &&
            (d.code == 0 <==> v.issuerVerify(t.first, t.second, t.third, gpk.x, gpk.y) && gpk.code == 0) &&
            (d.code == -2 <==> !v.issuerVerify(t.first, t.second, t.third, gpk.x, gpk.y))
  {
    var g, m := GroupKey.Length(c), c.modBytes;
    var buf := bg + bf;
    Halves(bg, bf);
    ReadFields3After(buf, g, m, ReadFields3(bf, m));
  }

  /** `ecdaa_issuer_secret_key_ZZZ_serialize`: `x` then `y`, `M` bytes each. */
  function SerializeSecret(c: Curve, isk: IssuerSecretKey): (r: seq<byte>)
    ensures |r| == SecretKeyLength(c)
  {
    ToBytes(isk.x, c.modBytes) + ToBytes(isk.y, c.modBytes)
  }

  datatype SecretDecoded = SecretDecoded(code: int, isk: IssuerSecretKey)

  /** `ecdaa_issuer_secret_key_ZZZ_deserialize`: every buffer is accepted. */
  function DeserializeSecret(c: Curve, buf: seq<byte>): (d: SecretDecoded)
    requires |buf| == SecretKeyLength(c)
    ensures d.code == 0
    ensures d.isk.x < Pow256(c.modBytes) && d.isk.y < Pow256(c.modBytes)
  {
    SecretDecoded(0, IssuerSecretKey(FromBytes(buf[..c.modBytes]), FromBytes(buf[c.modBytes..])))
  }

  /** The secret key codec keeps both bignums modulo `256^M` and reproduces every buffer. */
  lemma SecretRoundTrip(c: Curve, isk: IssuerSecretKey, buf: seq<byte>)
    requires |buf| == SecretKeyLength(c)
    ensures var d := DeserializeSecret(c, SerializeSecret(c, isk));
            d.isk.x == isk.x % Pow256(c.modBytes) && d.isk.y == isk.y % Pow256(c.modBytes)
    ensures SerializeSecret(c, DeserializeSecret(c, buf).isk) == buf
  {
    var m := c.modBytes;
    var s := SerializeSecret(c, isk);
    assert s[..m] == ToBytes(isk.x, m) && s[m..] == ToBytes(isk.y, m);
    FromToBytes(isk.x, m);
    FromToBytes(isk.y, m);
    ToFromBytes(buf[..m]);
    ToFromBytes(buf[m..]);
    assert buf == buf[..m] + buf[m..];
  }
}
