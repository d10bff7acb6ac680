/**
 The Schnorr-type proof verifiers the wire layer calls, kept
 uninterpreted: `schnorr_verify_ZZZ` (with an optional pseudonym point and
 a basename), `issuer_schnorr_verify_ZZZ` and `credential_schnorr_verify_ZZZ`.
 Each answers whether the proof checks.
 */
module Schnorr {
  import opened Wrappers
  import opened Bytes
  import opened Curve

  /**
   `verify(c, s, n, K, message, basepoint, publicKey, basename)`;
   `issuerVerify(c, sx, sy, X, Y)` receives the group public key halves as
   their decoder left them, since the issuer key decoder runs the check even
   after a failed point; `credentialVerify(c, s, B, Q, D)`.
   */
  datatype Verifiers = Verifiers(
    verify: (nat, nat, nat, Option<G1>, seq<byte>, G1, G1, seq<byte>) -> bool,
    issuerVerify: (nat, nat, nat, Result<G2, Failure>, Result<G2, Failure>) -> bool,
    credentialVerify: (nat, nat, G1, G1, G1) -> bool)
}
