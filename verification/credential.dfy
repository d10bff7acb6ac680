/**
 The member credential of `credential_ZZZ.c`: four G1 points
 `A | B | C | D`, and the issuer's proof `(c, s)` that it was built with
 the issuer's secret, encoded `c | s`.
 */
module Credentials {
  import opened Bytes
  import opened Wrappers
  import opened Curve
  import opened Schnorr
  import Ecp
  import GroupKey
  import MemberKeys

  datatype Credential = Credential(a: G1, b: G1, c: G1, d: G1)
  datatype CredentialSignature = CredentialSignature(c: nat, s: nat)

  /** `ECDAA_CREDENTIAL_ZZZ_LENGTH`. */
  function Length(cv: Curve): nat
  {
    4 * G1Length(cv.modBytes)
  }

  /** `ECDAA_CREDENTIAL_ZZZ_SIGNATURE_LENGTH`. */
  function SignatureLength(cv: Curve): nat
  {
    2 * cv.modBytes
  }

  /** `ecdaa_credential_ZZZ_serialize`: the four points at multiples of the G1 length. */
  function Serialize(cv: Curve, cred: Credential): (r: seq<byte>)
    requires Valid(cv)
    ensures |r| == Length(cv)
  {
    Ecp.Serialize(cv, cred.a) + Ecp.Serialize(cv, cred.b) + Ecp.Serialize(cv, cred.c) + Ecp.Serialize(cv, cred.d)
  }

  /** What the credential decoder leaves: its code and the four points as decoded. */
  datatype Decoded = Decoded(code: int, a: Result<G1, Failure>, b: Result<G1, Failure>,
                             c: Result<G1, Failure>, d: Result<G1, Failure>)

  predicate AllDecoded(d: Decoded)
  {
    d.a.Ok? && d.b.Ok? && d.c.Ok? && d.d.Ok?
  }

  /**
   `ecdaa_credential_ZZZ_deserialize`: each of the four points is decoded,
   none skipped after a failure, and any failure gives `-1`.
   */
  function Deserialize(cv: Curve, buf: seq<byte>): (d: Decoded)
    requires Valid(cv)
    requires |buf| == Length(cv)
    ensures var l := G1Length(cv.modBytes);
            d.a == Ecp.Deserialize(cv, buf[..l]) && d.b == Ecp.Deserialize(cv, buf[l..2 * l]) &&
            d.c == Ecp.Deserialize(cv, buf[2 * l..3 * l]) && d.d == Ecp.Deserialize(cv, buf[3 * l..])
    ensures d.code == 0 <==> AllDecoded(d)
    ensures d.code == 0 || d.code == -1
  {
    var l := G1Length(cv.modBytes);
    var a := Ecp.Deserialize(cv, buf[..l]);
    var code := if a.Err? then -1 else 0;
    var b := Ecp.Deserialize(cv, buf[l..2 * l]);
    var code := if b.Err? then -1 else code;
    var c := Ecp.Deserialize(cv, buf[2 * l..3 * l]);
    var code := if c.Err? then -1 else code;
    var d := Ecp.Deserialize(cv, buf[3 * l..]);
    var code := if d.Err? then -1 else code;
    Decoded(code, a, b, c, d)
  }

  /** The credential held by a decoder outcome whose four points all decoded. */
  function ValueOf(d: Decoded): Credential
    requires AllDecoded(d)
  {
    Credential(d.a.value, d.b.value, d.c.value, d.d.value)
  }

  /** `ecdaa_credential_ZZZ_signature_serialize`: `c` then `s`, `M` bytes each. */
  function SerializeSignature(cv: Curve, sig: CredentialSignature): (r: seq<byte>)
    ensures |r| == SignatureLength(cv)
  {
    ToBytes(sig.c, cv.modBytes) + ToBytes(sig.s, cv.modBytes)
  }

  /** The signature as `deserialize_with_signature` reads it: `c` at `0`, `s` at `M`. */
  function ReadSignature(cv: Curve, buf: seq<byte>): (sig: CredentialSignature)
    requires |buf| == SignatureLength(cv)
    ensures sig.c < Pow256(cv.modBytes) && sig.s < Pow256(cv.modBytes)
  {
    CredentialSignature(FromBytes(buf[..cv.modBytes]), FromBytes(buf[cv.modBytes..]))
  }

  /** The signature codec keeps both bignums modulo `256^M` and reproduces every buffer. */
  lemma SignatureRoundTrip(cv: Curve, sig: CredentialSignature, buf: seq<byte>)
    requires |buf| == SignatureLength(cv)
    ensures ReadSignature(cv, SerializeSignature(cv, sig)) ==
              CredentialSignature(sig.c % Pow256(cv.modBytes), sig.s % Pow256(cv.modBytes))
    ensures SerializeSignature(cv, ReadSignature(cv, buf)) == buf
  {
    var m := cv.modBytes;
    var s := SerializeSignature(cv, sig);
    assert s[..m] == ToBytes(sig.c, m) && s[m..] == ToBytes(sig.s, m);
    FromToBytes(sig.c, m);
    FromToBytes(sig.s, m);
    ToFromBytes(buf[..m]);
    ToFromBytes(buf[m..]);
    assert buf == buf[..m] + buf[m..];
  }

  /**
   The three checks of `ecdaa_credential_ZZZ_validate`: the issuer's proof
   over `B`, `Q` and `D`; `e(A, Y) == e(B, P2)`; and
   `e(C, P2) == e(A + D, X)`, with `P2` the G2 generator.
   */
  predicate ChecksPass(cv: Curve, v: Verifiers, cred: Credential, sig: CredentialSignature,
                       pk: MemberKeys.MemberPublicKey, gpk: GroupKey.GroupPublicKey)
  {
    && v.credentialVerify(sig.c, sig.s, cred.b, pk.q, cred.d)
    && cv.pairing(cred.a, gpk.y) == cv.pairing(cred.b, cv.g2Generator)
    && cv.pairing(cred.c, cv.g2Generator) == cv.pairing(cv.g1Add(cred.a, cred.d), gpk.x)
  }

  /**
   `ecdaa_credential_ZZZ_validate`: every check runs and a failing one sets
   `-1`; `0` only when all three pass.
   */
  function Validate(cv: Curve, v: Verifiers, cred: Credential, sig: CredentialSignature,
                    pk: MemberKeys.MemberPublicKey, gpk: GroupKey.GroupPublicKey): (code: int)
    ensures code == 0 <==> ChecksPass(cv, v, cred, sig, pk, gpk)
    ensures code == 0 || code == -1
  {
    var code := if !v.credentialVerify(sig.c, sig.s, cred.b, pk.q, cred.d) then -1 else 0;
    var code := if cv.pairing(cred.a, gpk.y) != cv.pairing(cred.b, cv.g2Generator) then -1 else code;
    var ad := cv.g1Add(cred.a, cred.d);
    var code := if cv.pairing(cred.c, cv.g2Generator) != cv.pairing(ad, gpk.x) then -1 else code;
    code
  }

  /** What `deserialize_with_signature` leaves: its code, the credential as decoded and the signature read. */
  datatype WithSignature = WithSignature(code: int, credential: Decoded, signature: CredentialSignature)

  /**
   `ecdaa_credential_ZZZ_deserialize_with_signature`: `-1` when the
   credential does not decode, and the checks are then skipped; `-2` when it
   decodes but a check fails; `0` otherwise.
   */
  function DeserializeWithSignature(cv: Curve, v: Verifiers, pk: MemberKeys.MemberPublicKey,
                                    gpk: GroupKey.GroupPublicKey, credBuf: seq<byte>, sigBuf: seq<byte>): (r: WithSignature)
    requires Valid(cv)
    requires |credBuf| == Length(cv) && |sigBuf| == SignatureLength(cv)
    ensures r.credential == Deserialize(cv, credBuf)
    ensures r.signature == ReadSignature(cv, sigBuf)
    ensures r.code == -1 <==> !AllDecoded(r.credential)
    ensures r.code == -2 <==> AllDecoded(r.credential) && !ChecksPass(cv, v, ValueOf(r.credential), r.signature, pk, gpk)
    ensures r.code == 0 <==> AllDecoded(r.credential) && ChecksPass(cv, v, ValueOf(r.credential), r.signature, pk, gpk)
  {
    var cred := Deserialize(cv, credBuf);
    var sig := ReadSignature(cv, sigBuf);
    if cred.code == 0 then
      var code := if Validate(cv, v, ValueOf(cred), sig, pk, gpk) != 0 then -2 else cred.code;
      WithSignature(code, cred, sig)
    else
      WithSignature(cred.code, cred, sig)
  }

  /** Four points that pass the G1 test come back unchanged with code `0`. */
  lemma RoundTrip(cv: Curve, cred: Credential)
    requires Valid(cv)
    requires Reduced1(cv, cred.a) && InGroup1(cv, cred.a) && Reduced1(cv, cred.b) && InGroup1(cv, cred.b)
    requires Reduced1(cv, cred.c) && InGroup1(cv, cred.c) && Reduced1(cv, cred.d) && InGroup1(cv, cred.d)
    ensures Deserialize(cv, Serialize(cv, cred)) == Decoded(0, Ok(cred.a), Ok(cred.b), Ok(cred.c), Ok(cred.d))
  {
    var l, buf := G1Length(cv.modBytes), Serialize(cv, cred);
    var d := Deserialize(cv, buf);
    var ea, eb, ec, ed := Ecp.Serialize(cv, cred.a), Ecp.Serialize(cv, cred.b), Ecp.Serialize(cv, cred.c), Ecp.Serialize(cv, cred.d);
    assert buf[..l] == ea && buf[l..2 * l] == eb && buf[2 * l..3 * l] == ec && buf[3 * l..] == ed by {
      Blocks4(ea, eb, ec, ed);
    }
    assert d.a == Ok(cred.a) by {
      Ecp.SerializeThenDeserialize(cv, cred.a);
    }
    assert d.b == Ok(cred.b) by {
      Ecp.SerializeThenDeserialize(cv, cred.b);
    }
    assert d.c == Ok(cred.c) by {
      Ecp.SerializeThenDeserialize(cv, cred.c);
    }
    assert d.d == Ok(cred.d) by {
      Ecp.SerializeThenDeserialize(cv, cred.d);
    }
  }

  /**
   An issued credential that is encoded and read back with its signature is
   accepted exactly when the three checks pass on the original values.
   */
  lemma IssuedCredentialAccepted(cv: Curve, v: Verifiers, cred: Credential, sig: CredentialSignature,
                                 pk: MemberKeys.MemberPublicKey, gpk: GroupKey.GroupPublicKey)
    requires Valid(cv)
    requires Reduced1(cv, cred.a) && InGroup1(cv, cred.a) && Reduced1(cv, cred.b) && InGroup1(cv, cred.b)
    requires Reduced1(cv, cred.c) && InGroup1(cv, cred.c) && Reduced1(cv, cred.d) && InGroup1(cv, cred.d)
    requires sig.c < Pow256(cv.modBytes) && sig.s < Pow256(cv.modBytes)
    ensures var r := DeserializeWithSignature(cv, v, pk, gpk, Serialize(cv, cred), SerializeSignature(cv, sig));
            r.code == (if ChecksPass(cv, v, cred, sig, pk, gpk) then 0 else -2)
  {
    RoundTrip(cv, cred);
    SignatureRoundTrip(cv, sig, SerializeSignature(cv, sig));
    ModOfSmaller(sig.c, Pow256(cv.modBytes));
    ModOfSmaller(sig.s, Pow256(cv.modBytes));
  }
}
