/**
 The DAA signature of `signature_ZZZ.c`: the Schnorr-type proof
 `(c, s, n)`, the randomised credential `R, S, T, W`, and, for a signature
 made with a basename, the pseudonym `K`. The encoding is
 `c | s | R | S | T | W | n`, followed by `K` only when there is a pseudonym.
 */
module Signatures {
  import opened Bytes
  import opened Wrappers
  import opened Curve
  import opened Schnorr
  import Ecp
  import GroupKey

  datatype Signature = Signature(c: nat, s: nat, R: G1, S: G1, T: G1, W: G1, n: nat, K: G1)

  /** `ECDAA_SIGNATURE_ZZZ_LENGTH`: three bignums and four points. */
  function Length(cv: Curve): nat
  {
    3 * cv.modBytes + 4 * G1Length(cv.modBytes)
  }

  /** `ECDAA_SIGNATURE_ZZZ_WITH_NYM_LENGTH`: one more point, the pseudonym. */
  function WithNymLength(cv: Curve): nat
  {
    3 * cv.modBytes + 5 * G1Length(cv.modBytes)
  }

  /** The length of an encoding with or without a pseudonym. */
  function EncodedLength(cv: Curve, hasNym: bool): nat
  {
    if hasNym then WithNymLength(cv) else Length(cv)
  }

  /** The four points `R | S | T | W`. */
  function Points(cv: Curve, sig: Signature): (r: seq<byte>)
    requires Valid(cv)
    ensures |r| == 4 * G1Length(cv.modBytes)
  {
    Ecp.Serialize(cv, sig.R) + Ecp.Serialize(cv, sig.S) + Ecp.Serialize(cv, sig.T) + Ecp.Serialize(cv, sig.W)
  }

  /** `c | s | R | S | T | W | n`: everything but the pseudonym. */
  function Head(cv: Curve, sig: Signature): (r: seq<byte>)
    requires Valid(cv)
    ensures |r| == Length(cv)
  {
    var m := cv.modBytes;
    ToBytes(sig.c, m) + ToBytes(sig.s, m) + Points(cv, sig) + ToBytes(sig.n, m)
  }

  /**
   `ecdaa_signature_ZZZ_serialize`: `c` and `s`, the four points from `2M`,
   `n` at `2M + 4L`, and the pseudonym at `3M + 4L` only when `hasNym`.
   */
  function Serialize(cv: Curve, sig: Signature, hasNym: bool): (r: seq<byte>)
    requires Valid(cv)
    ensures |r| == EncodedLength(cv, hasNym)
  {
    if hasNym then Head(cv, sig) + Ecp.Serialize(cv, sig.K) else Head(cv, sig)
  }

  /** The four points `R, S, T, W` as decoded from consecutive G1 encodings. */
  datatype PointsDecoded = PointsDecoded(R: Result<G1, Failure>, S: Result<G1, Failure>,
                                         T: Result<G1, Failure>, W: Result<G1, Failure>)

  function DecodePoints(cv: Curve, pts: seq<byte>): PointsDecoded
    requires Valid(cv)
    requires |pts| == 4 * G1Length(cv.modBytes)
  {
    var l := G1Length(cv.modBytes);
    PointsDecoded(Ecp.Deserialize(cv, pts[..l]), Ecp.Deserialize(cv, pts[l..2 * l]),
                  Ecp.Deserialize(cv, pts[2 * l..3 * l]), Ecp.Deserialize(cv, pts[3 * l..]))
  }

  /** The fields read from the first `Length` bytes: `c`, `s`, the four points and `n`. */
  datatype HeadDecoded = HeadDecoded(c: nat, s: nat, points: PointsDecoded, n: nat)

  function DecodeHead(cv: Curve, h: seq<byte>): HeadDecoded
    requires Valid(cv)
    requires |h| == Length(cv)
  {
    var m, l := cv.modBytes, G1Length(cv.modBytes);
    HeadDecoded(FromBytes(h[..m]), FromBytes(h[m..2 * m]), DecodePoints(cv, h[2 * m..2 * m + 4 * l]),
                FromBytes(h[2 * m + 4 * l..]))
  }

  /** What the signature decoder leaves: its code, the bignums, and the points as decoded. */
  datatype Decoded = Decoded(code: int, c: nat, s: nat,
                             R: Result<G1, Failure>, S: Result<G1, Failure>,
                             T: Result<G1, Failure>, W: Result<G1, Failure>,
                             n: nat, K: Result<G1, Failure>)

  predicate AllDecoded(d: Decoded)
  {
    d.R.Ok? && d.S.Ok? && d.T.Ok? && d.W.Ok? && d.K.Ok?
  }

  /**
   `ecdaa_signature_ZZZ_deserialize`: the bignums are always read and
   every point decoded; `-1` when any of `R, S, T, W` fails, or `K` fails
   when there is a pseudonym. Without one, `K` is set to the G1 generator.
   */
  function Deserialize(cv: Curve, buf: seq<byte>, hasNym: bool): (d: Decoded)
    requires Valid(cv)
    requires |buf| == EncodedLength(cv, hasNym)
    ensures var m, l, h := cv.modBytes, G1Length(cv.modBytes), buf[..Length(cv)];
            d.c == FromBytes(h[..m]) && d.s == FromBytes(h[m..2 * m]) && d.n == FromBytes(h[2 * m + 4 * l..])
    ensures var m, l := cv.modBytes, G1Length(cv.modBytes);
            var p := buf[..Length(cv)][2 * m..2 * m + 4 * l];
            d.R == Ecp.Deserialize(cv, p[..l]) && d.S == Ecp.Deserialize(cv, p[l..2 * l]) &&
            d.T == Ecp.Deserialize(cv, p[2 * l..3 * l]) && d.W == Ecp.Deserialize(cv, p[3 * l..])
    ensures hasNym ==> d.K == Ecp.Deserialize(cv, buf[Length(cv)..])
    ensures !hasNym ==> d.K == Ok(cv.g1Generator)
    ensures d.code == 0 <==> AllDecoded(d)
    ensures d.code == 0 || d.code == -1
  {
    var hd := DecodeHead(cv, buf[..Length(cv)]);
    var q := hd.points;
    var code := if q.R.Err? || q.S.Err? || q.T.Err? || q.W.Err? then -1 else 0;
    if hasNym then
      var K := Ecp.Deserialize(cv, buf[Length(cv)..]);
      var code := if K.Err? then -1 else code;
      Decoded(code, hd.c, hd.s, q.R, q.S, q.T, q.W, hd.n, K)
    else
      Decoded(code, hd.c, hd.s, q.R, q.S, q.T, q.W, hd.n, Ok(cv.g1Generator))
  }

  /** The signature held by a decoder outcome whose points all decoded. */
  function ValueOf(d: Decoded): Signature
    requires AllDecoded(d)
  {
    Signature(d.c, d.s, d.R.value, d.S.value, d.T.value, d.W.value, d.n, d.K.value)
  }

  /** Where a pseudonym lies inside an encoded signature. */
  datatype Span = Span(offset: nat, length: nat)

  /**
   `ecdaa_signature_ZZZ_access_pseudonym_in_serialized`: the pseudonym
   starts where a signature without one ends and fills the rest of the
   longer encoding.
   */
  function AccessPseudonym(cv: Curve): (sp: Span)
    ensures sp.offset == Length(cv)
    ensures sp.offset + sp.length == WithNymLength(cv)
  {
    Span(3 * cv.modBytes + 4 * G1Length(cv.modBytes), G1Length(cv.modBytes))
  }

  /** The span the accessor names holds exactly the encoding of `K`, which the decoder reads. */
  lemma PseudonymInSerialized(cv: Curve, sig: Signature, buf: seq<byte>)
    requires Valid(cv)
    requires |buf| == WithNymLength(cv)
    ensures var sp := AccessPseudonym(cv);
            Serialize(cv, sig, true)[sp.offset..sp.offset + sp.length] == Ecp.Serialize(cv, sig.K)
    ensures var sp := AccessPseudonym(cv);
            Deserialize(cv, buf, true).K == Ecp.Deserialize(cv, buf[sp.offset..sp.offset + sp.length])
  {
    var sp := AccessPseudonym(cv);
    assert buf[sp.offset..sp.offset + sp.length] == buf[Length(cv)..];
  }

  /** Without a pseudonym, nothing is written past `Length`: the short encoding is a prefix of the long one. */
  lemma ShortEncodingIsPrefix(cv: Curve, sig: Signature)
    requires Valid(cv)
    ensures Serialize(cv, sig, false) == Serialize(cv, sig, true)[..Length(cv)]
  {
  }

  /**
   Decoding an encoded signature gives back its bignums modulo `256^M`,
   and, when its points pass the G1 test, exactly its points with code `0`;
   without a pseudonym the decoded `K` is the generator whatever the
   original `K` was.
   */
  lemma RoundTrip(cv: Curve, sig: Signature, hasNym: bool)
    requires Valid(cv)
    requires Reduced1(cv, sig.R) && InGroup1(cv, sig.R) && Reduced1(cv, sig.S) && InGroup1(cv, sig.S)
    requires Reduced1(cv, sig.T) && InGroup1(cv, sig.T) && Reduced1(cv, sig.W) && InGroup1(cv, sig.W)
    requires hasNym ==> Reduced1(cv, sig.K) && InGroup1(cv, sig.K)
    ensures var w := Pow256(cv.modBytes);
            Deserialize(cv, Serialize(cv, sig, hasNym), hasNym) ==
              Decoded(0, sig.c % w, sig.s % w, Ok(sig.R), Ok(sig.S), Ok(sig.T), Ok(sig.W), sig.n % w,
                      Ok(if hasNym then sig.K else cv.g1Generator))
  {
    var buf := Serialize(cv, sig, hasNym);
    assert buf[..Length(cv)] == Head(cv, sig);
    HeadRoundTrip(cv, sig);
    if hasNym {
      assert buf[Length(cv)..] == Ecp.Serialize(cv, sig.K);
      Ecp.SerializeThenDeserialize(cv, sig.K);
    }
  }

  /** The part before the pseudonym decodes to the bignums modulo `256^M` and the four points. */
  lemma HeadRoundTrip(cv: Curve, sig: Signature)
    requires Valid(cv)
    requires Reduced1(cv, sig.R) && InGroup1(cv, sig.R) && Reduced1(cv, sig.S) && InGroup1(cv, sig.S)
    requires Reduced1(cv, sig.T) && InGroup1(cv, sig.T) && Reduced1(cv, sig.W) && InGroup1(cv, sig.W)
    ensures var w := Pow256(cv.modBytes);
            DecodeHead(cv, Head(cv, sig)) ==
              HeadDecoded(sig.c % w, sig.s % w, PointsDecoded(Ok(sig.R), Ok(sig.S), Ok(sig.T), Ok(sig.W)), sig.n % w)
  {
    var m, l := cv.modBytes, G1Length(cv.modBytes);
    var bc, bs, pts, bn := ToBytes(sig.c, m), ToBytes(sig.s, m), Points(cv, sig), ToBytes(sig.n, m);
    var h := Head(cv, sig);
    assert h[..m] == bc && h[m..2 * m] == bs && h[2 * m..2 * m + 4 * l] == pts && h[2 * m + 4 * l..] == bn by {
      Blocks4(bc, bs, pts, bn);
    }
    assert DecodeHead(cv, h) == HeadDecoded(FromBytes(bc), FromBytes(bs), DecodePoints(cv, pts), FromBytes(bn));
    FromToBytes(sig.c, m);
    FromToBytes(sig.s, m);
    FromToBytes(sig.n, m);
    PointsRoundTrip(cv, sig);
  }

  /**
   The encoding holds `c` at `0`, `s` at `M`, the four points in the `4L`
   bytes from `2M`, and `n` at `2M + 4L`, with or without a pseudonym.
   */
  lemma SerializeLayout(cv: Curve, sig: Signature, hasNym: bool)
    requires Valid(cv)
    ensures var m, l, h := cv.modBytes, G1Length(cv.modBytes), Serialize(cv, sig, hasNym)[..Length(cv)];
            h[..m] == ToBytes(sig.c, m) && h[m..2 * m] == ToBytes(sig.s, m) &&
            h[2 * m..2 * m + 4 * l] == Points(cv, sig) && h[2 * m + 4 * l..] == ToBytes(sig.n, m)
  {
    var m := cv.modBytes;
    assert Serialize(cv, sig, hasNym)[..Length(cv)] == Head(cv, sig);
    Blocks4(ToBytes(sig.c, m), ToBytes(sig.s, m), Points(cv, sig), ToBytes(sig.n, m));
  }

  /** Within the point block, `R, S, T, W` sit at `0`, `L`, `2L` and `3L`. */
  lemma PointsLayout(cv: Curve, sig: Signature)
    requires Valid(cv)
    ensures var l, p := G1Length(cv.modBytes), Points(cv, sig);
            p[..l] == Ecp.Serialize(cv, sig.R) && p[l..2 * l] == Ecp.Serialize(cv, sig.S) &&
            p[2 * l..3 * l] == Ecp.Serialize(cv, sig.T) && p[3 * l..] == Ecp.Serialize(cv, sig.W)
  {
    Blocks4(Ecp.Serialize(cv, sig.R), Ecp.Serialize(cv, sig.S), Ecp.Serialize(cv, sig.T), Ecp.Serialize(cv, sig.W));
  }

  /** The four encoded points decode to themselves when they pass the G1 test. */
  lemma PointsRoundTrip(cv: Curve, sig: Signature)
    requires Valid(cv)
    requires Reduced1(cv, sig.R) && InGroup1(cv, sig.R) && Reduced1(cv, sig.S) && InGroup1(cv, sig.S)
    requires Reduced1(cv, sig.T) && InGroup1(cv, sig.T) && Reduced1(cv, sig.W) && InGroup1(cv, sig.W)
    ensures DecodePoints(cv, Points(cv, sig)) == PointsDecoded(Ok(sig.R), Ok(sig.S), Ok(sig.T), Ok(sig.W))
  {
    var l := G1Length(cv.modBytes);
    var pts := Points(cv, sig);
    var eR, eS, eT, eW := Ecp.Serialize(cv, sig.R), Ecp.Serialize(cv, sig.S), Ecp.Serialize(cv, sig.T), Ecp.Serialize(cv, sig.W);
    assert pts[..l] == eR && pts[l..2 * l] == eS && pts[2 * l..3 * l] == eT && pts[3 * l..] == eW by {
      Blocks4(eR, eS, eT, eW);
    }
    Ecp.SerializeThenDeserialize(cv, sig.R);
    Ecp.SerializeThenDeserialize(cv, sig.S);
    Ecp.SerializeThenDeserialize(cv, sig.T);
    Ecp.SerializeThenDeserialize(cv, sig.W);
  }

  /** The revocation lists: revoked member secret keys and revoked pseudonyms. */
  datatype Revocations = Revocations(sks: seq<nat>, bsns: seq<G1>)

  /**
   The three non-revocation checks of `ecdaa_signature_ZZZ_verify`: the
   Schnorr-type proof with base point `S` and public point `W`;
   `e(R, Y) == e(S, P2)`; and `e(T, P2) == e(R + W, X)`.
   */
  predicate ChecksPass(cv: Curve, v: Verifiers, sig: Signature, gpk: GroupKey.GroupPublicKey,
                       message: seq<byte>, basename: seq<byte>)
  {
    && v.verify(sig.c, sig.s, sig.n, Some(sig.K), message, sig.S, sig.W, basename)
    && cv.pairing(sig.R, gpk.y) == cv.pairing(sig.S, cv.g2Generator)
    && cv.pairing(sig.T, cv.g2Generator) == cv.pairing(cv.g1Add(sig.R, sig.W), gpk.x)
  }

  /** Some revoked secret key `sk` has `sk * S == W`: the signer's key is revoked. */
  predicate SkRevoked(cv: Curve, sig: Signature, rev: Revocations)
  {
    exists i :: 0 <= i < |rev.sks| && cv.g1Mul(sig.S, rev.sks[i]) == sig.W
  }

  /** Some revoked pseudonym equals `K`. */
  predicate BsnRevoked(sig: Signature, rev: Revocations)
  {
    exists i :: 0 <= i < |rev.bsns| && rev.bsns[i] == sig.K
  }

  /** A signature `verify` accepts: every check passes and neither list revokes it. */
  predicate Accepts(cv: Curve, v: Verifiers, sig: Signature, gpk: GroupKey.GroupPublicKey,
                    rev: Revocations, message: seq<byte>, basename: seq<byte>)
  {
    ChecksPass(cv, v, sig, gpk, message, basename) && !SkRevoked(cv, sig, rev) && !BsnRevoked(sig, rev)
  }

  /**
   `ecdaa_signature_ZZZ_verify`: every check runs, each failure setting
   `-1`, with no early exit; both revocation lists are scanned in full.
   */
  method Verify(cv: Curve, v: Verifiers, sig: Signature, gpk: GroupKey.GroupPublicKey,
                rev: Revocations, message: seq<byte>, basename: seq<byte>) returns (ret: int)
    ensures ret == 0 || ret == -1
    ensures ret == 0 <==> Accepts(cv, v, sig, gpk, rev, message, basename)
  {
    ret := 0;
    if !v.verify(sig.c, sig.s, sig.n, Some(sig.K), message, sig.S, sig.W, basename) {
      ret := -1;
    }
    if cv.pairing(sig.R, gpk.y) != cv.pairing(sig.S, cv.g2Generator) {
      ret := -1;
    }
    var rw := cv.g1Add(sig.R, sig.W);
    if cv.pairing(sig.T, cv.g2Generator) != cv.pairing(rw, gpk.x) {
      ret := -1;
    }
    var i := 0;
    while i < |rev.sks|
      invariant 0 <= i <= |rev.sks|
      invariant ret == 0 || ret == -1
      invariant ret == 0 <==>
                  ChecksPass(cv, v, sig, gpk, message, basename) &&
                  forall j :: 0 <= j < i ==> cv.g1Mul(sig.S, rev.sks[j]) != sig.W
    {
      var wCheck := cv.g1Mul(sig.S, rev.sks[i]);
      if wCheck == sig.W {
        ret := -1;
      }
      i := i + 1;
    }
    i := 0;
    while i < |rev.bsns|
      invariant 0 <= i <= |rev.bsns|
      invariant ret == 0 || ret == -1
      invariant ret == 0 <==>
                  ChecksPass(cv, v, sig, gpk, message, basename) && !SkRevoked(cv, sig, rev) &&
                  forall j :: 0 <= j < i ==> rev.bsns[j] != sig.K
    {
      if rev.bsns[i] == sig.K {
        ret := -1;
      }
      i := i + 1;
    }
  }

  /**
   `ecdaa_signature_ZZZ_deserialize_and_verify`: `-1` when the signature
   does not decode, and it is then not verified; `-2` when it decodes but
   `verify` rejects it; `0` otherwise.
   */
  method DeserializeAndVerify(cv: Curve, v: Verifiers, gpk: GroupKey.GroupPublicKey, rev: Revocations,
                              buf: seq<byte>, message: seq<byte>, basename: seq<byte>, hasNym: bool)
    returns (code: int, d: Decoded)
    requires Valid(cv)
    requires |buf| == EncodedLength(cv, hasNym)
    ensures d == Deserialize(cv, buf, hasNym)
    ensures code == -1 <==> !AllDecoded(d)
    ensures code == -2 <==> AllDecoded(d) && !Accepts(cv, v, ValueOf(d), gpk, rev, message, basename)
    ensures code == 0 <==> AllDecoded(d) && Accepts(cv, v, ValueOf(d), gpk, rev, message, basename)
  {
    d := Deserialize(cv, buf, hasNym);
    code := d.code;
    if code == 0 {
      var valid := Verify(cv, v, ValueOf(d), gpk, rev, message, basename);
      if valid != 0 {
        code := -2;
      }
    }
  }

  /**
   A signature whose points pass the G1 test and whose bignums fit, once
   encoded, is accepted exactly when `verify` accepts the original, with
   `K` replaced by the generator when there is no pseudonym.
   */
  method VerifyEncoded(cv: Curve, v: Verifiers, gpk: GroupKey.GroupPublicKey, rev: Revocations,
                       sig: Signature, message: seq<byte>, basename: seq<byte>, hasNym: bool)
    returns (code: int)
    requires Valid(cv)
    requires Reduced1(cv, sig.R) && InGroup1(cv, sig.R) && Reduced1(cv, sig.S) && InGroup1(cv, sig.S)
    requires Reduced1(cv, sig.T) && InGroup1(cv, sig.T) && Reduced1(cv, sig.W) && InGroup1(cv, sig.W)
    requires hasNym ==> Reduced1(cv, sig.K) && InGroup1(cv, sig.K)
    requires sig.c < Pow256(cv.modBytes) && sig.s < Pow256(cv.modBytes) && sig.n < Pow256(cv.modBytes)
    ensures var used := if hasNym then sig else sig.(K := cv.g1Generator);
            code == (if Accepts(cv, v, used, gpk, rev, message, basename) then 0 else -2)
  {
    RoundTrip(cv, sig, hasNym);
    ModOfSmaller(sig.c, Pow256(cv.modBytes));
    ModOfSmaller(sig.s, Pow256(cv.modBytes));
    ModOfSmaller(sig.n, Pow256(cv.modBytes));
    var d;
    code, d := DeserializeAndVerify(cv, v, gpk, rev, Serialize(cv, sig, hasNym), message, basename, hasNym);
  }
}
