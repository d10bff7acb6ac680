/**
 The member key pair of `member_keypair_ZZZ.c`. The public key is the
 Schnorr public key `Q` with a proof of knowledge `(c, s, n)` over a
 nonce, encoded `Q | c | s | n`; the secret key is one bignum. Bignum
 fields are written as `MODBYTES` big-endian bytes, which keeps a value
 modulo `256^MODBYTES`.
 */
module MemberKeys {
  import opened Bytes
  import opened Wrappers
  import opened Curve
  import opened Schnorr
  import Ecp

  datatype MemberPublicKey = MemberPublicKey(q: G1, c: nat, s: nat, n: nat)
  datatype MemberSecretKey = MemberSecretKey(sk: nat)

  /** `ECDAA_MEMBER_PUBLIC_KEY_ZZZ_LENGTH`. */
  function PublicKeyLength(c: Curve): nat
  {
    G1Length(c.modBytes) + 3 * c.modBytes
  }

  /** `ECDAA_MEMBER_SECRET_KEY_ZZZ_LENGTH`. */
  function SecretKeyLength(c: Curve): nat
  {
    c.modBytes
  }

  /** `ecdaa_member_public_key_ZZZ_serialize`: `Q`, then `c`, `s` and `n` at `L`, `L + M` and `L + 2M`. */
  function Serialize(c: Curve, pk: MemberPublicKey): (r: seq<byte>)
    requires Valid(c)
    ensures |r| == PublicKeyLength(c)
  {
    Ecp.Serialize(c, pk.q) + Fields3(Triple(pk.c, pk.s, pk.n), c.modBytes)
  }

  /** What a public key decoder leaves: its return code, `Q` as decoded, and the three bignums. */
  datatype Decoded = Decoded(code: int, q: Result<G1, Failure>, c: nat, s: nat, n: nat)

  /**
   `ecdaa_member_public_key_ZZZ_deserialize_no_check`: `-1` exactly when
   `Q` fails to decode; the three bignums are read either way.
   */
  function DeserializeNoCheck(c: Curve, buf: seq<byte>): (d: Decoded)
    requires Valid(c)
    requires |buf| == PublicKeyLength(c)
    ensures var l, m := G1Length(c.modBytes), c.modBytes;
            d.q == Ecp.Deserialize(c, buf[..l]) &&
            d.c == FromBytes(buf[l..l + m]) && d.s == FromBytes(buf[l + m..l + 2 * m]) &&
            d.n == FromBytes(buf[l + 2 * m..])
    ensures d.code == -1 <==> d.q.Err?
    ensures d.code == 0 || d.code == -1
  {
    var l := G1Length(c.modBytes);
    var q := Ecp.Deserialize(c, buf[..l]);
    var code := if q.Err? then -1 else 0;
    var fields := ReadFields3(buf[l..], c.modBytes);
    ReadFields3At(buf, l, c.modBytes);
    Decoded(code, q, fields.first, fields.second, fields.third)
  }

  /** Whether the proof in the key checks: base point the G1 generator, no pseudonym, no basename. */
  predicate ProofChecks(c: Curve, v: Verifiers, pk: MemberPublicKey, nonce: seq<byte>)
  {
    v.verify(pk.c, pk.s, pk.n, None, nonce, c.g1Generator, pk.q, [])
  }

  /** `ecdaa_member_public_key_ZZZ_validate`: `0` or `-1`, nothing else. */
  function Validate(c: Curve, v: Verifiers, pk: MemberPublicKey, nonce: seq<byte>): (code: int)
    ensures code == 0 <==> ProofChecks(c, v, pk, nonce)
    ensures code == 0 || code == -1
  {
    if v.verify(pk.c, pk.s, pk.n, None, nonce, c.g1Generator, pk.q, []) then 0 else -1
  }

  /**
   `ecdaa_member_public_key_ZZZ_deserialize`: `-1` when the encoding does
   not decode, in which case the proof is not checked; `-2` when it decodes
   but the proof fails; `0` otherwise. The fields are those of the
   unchecked decoder.
   */
  function Deserialize(c: Curve, v: Verifiers, buf: seq<byte>, nonce: seq<byte>): (d: Decoded)
    requires Valid(c)
    requires |buf| == PublicKeyLength(c)
    ensures var raw := DeserializeNoCheck(c, buf);
            d.q == raw.q && d.c == raw.c && d.s == raw.s && d.n == raw.n
    ensures d.code == -1 <==> d.q.Err?
    ensures d.code == -2 <==> d.q.Ok? && !ProofChecks(c, v, MemberPublicKey(d.q.value, d.c, d.s, d.n), nonce)
    ensures d.code == 0 <==> d.q.Ok? && ProofChecks(c, v, MemberPublicKey(d.q.value, d.c, d.s, d.n), nonce)
  {
    var raw := DeserializeNoCheck(c, buf);
    var code := if raw.code != 0 then -1 else 0;
    if raw.code == 0 then
      var code := if Validate(c, v, MemberPublicKey(raw.q.value, raw.c, raw.s, raw.n), nonce) != 0 then -2 else code;
      raw.(code := code)
    else
      raw.(code := code)
  }

  /**
   Decoding an encoded key returns its bignums modulo `256^M` and its point
   as the point decoder does; when the point passes the G1 test and the
   bignums fit, the key comes back exactly.
   */
  lemma RoundTrip(c: Curve, pk: MemberPublicKey)
    requires Valid(c)
    ensures var d := DeserializeNoCheck(c, Serialize(c, pk));
            var w := Pow256(c.modBytes);
            d.q == Ecp.Deserialize(c, Ecp.Serialize(c, pk.q)) &&
            d.c == pk.c % w && d.s == pk.s % w && d.n == pk.n % w
    ensures Reduced1(c, pk.q) && InGroup1(c, pk.q) && pk.c < Pow256(c.modBytes) &&
            pk.s < Pow256(c.modBytes) && pk.n < Pow256(c.modBytes) ==>
              DeserializeNoCheck(c, Serialize(c, pk)) == Decoded(0, Ok(pk.q), pk.c, pk.s, pk.n)
  {
    var m := c.modBytes;
    var bq, bf := Ecp.Serialize(c, pk.q), Fields3(Triple(pk.c, pk.s, pk.n), m);
    assert (bq + bf)[..|bq|] == bq && (bq + bf)[|bq|..] == bf;
    Fields3RoundTrip(Triple(pk.c, pk.s, pk.n), m);
    Ecp.SerializeThenDeserialize(c, pk.q);
    if pk.c < Pow256(m) && pk.s < Pow256(m) && pk.n < Pow256(m) {
      ModOfSmaller(pk.c, Pow256(m));
      ModOfSmaller(pk.s, Pow256(m));
      ModOfSmaller(pk.n, Pow256(m));
    }
  }

  /** `ecdaa_member_secret_key_ZZZ_serialize`: `sk` in `M` bytes. */
  function SerializeSecret(c: Curve, sk: MemberSecretKey): (r: seq<byte>)
    ensures |r| == SecretKeyLength(c)
  {
    ToBytes(sk.sk, c.modBytes)
  }

  datatype SecretDecoded = SecretDecoded(code: int, sk: MemberSecretKey)

  /** `ecdaa_member_secret_key_ZZZ_deserialize`: every buffer is accepted. */
  function DeserializeSecret(c: Curve, buf: seq<byte>): (d: SecretDecoded)
    requires |buf| == SecretKeyLength(c)
    ensures d.code == 0
    ensures d.sk.sk < Pow256(c.modBytes)
  {
    SecretDecoded(0, MemberSecretKey(FromBytes(buf)))
  }

  /** The secret key codec is a bijection between `[0, 256^M)` and `M`-byte buffers. */
  lemma SecretRoundTrip(c: Curve, sk: MemberSecretKey, buf: seq<byte>)
    requires |buf| == SecretKeyLength(c)
    ensures DeserializeSecret(c, SerializeSecret(c, sk)).sk.sk == sk.sk % Pow256(c.modBytes)
    ensures SerializeSecret(c, DeserializeSecret(c, buf).sk) == buf
  {
    FromToBytes(sk.sk, c.modBytes);
    ToFromBytes(buf);
  }
}
