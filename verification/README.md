# ECDAA: template expansion and the wire/validation layer, in Dafny

This project models two parts of the `xaptum/ecdaa` library.

**The build-time template expander** is `cmake/template_expansion.py`. One
run takes a template file, a list of curve names, an output directory and
the top-level directory. It rewrites the tokens `XXX` (bignum width), `YYY`
(field variant) and `ZZZ` (curve name) in the template's text and path.
It then does one of two things:

- write one expanded file per curve;
- in `--top-level-header` mode, write one header in which every `#include`
  line naming a token is repeated once per curve.

Finally it prints the set of generated names, each followed by `;`. Its
pieces are modelled as follows:

- Python's `str.replace` is modelled exactly, including the empty pattern
  (module `Text`).
- `readlines` is modelled exactly (module `Text`).
- The filesystem is a map from path to text (module `TemplateExpansion`).
- A failed dictionary lookup (`KeyError`) or a missing template stops the
  run. Files written before the failure stay. The failures of missing
  options and of output paths without a directory part are not modelled
  (see "Left out").

**The non-cryptographic wire and validation layer** of the library covers:

- the random-byte pool (`RandPool`);
- the bignum helpers `big_XXX` (`Big`);
- the G1 and G2 point codecs (`Ecp`, `Ecp2`);
- the group public key (`GroupKey`);
- the member and issuer key pairs (`MemberKeys`, `IssuerKeys`);
- the credential (`Credentials`);
- the signature (`Signatures`).

Every encoder is a function producing a byte sequence. Every decoder
returns the C function's return code together with everything it leaves
in its output structure. That makes two things observable: "every field is
still read after a failure", and which code wins when several checks fail.

One build of the library for one curve is a `Curve` record. It holds:

- `MODBYTES`, the field prime, the group order and the cofactor;
- the curve operations and the pairing, as function-valued fields.

The Schnorr-type proof verifiers are function-valued fields of
`Schnorr.Verifiers`. SHA-256 is the state machine `Big.Hasher`. Bignums
are unbounded naturals. `BIG_XXX_toBytes` and `BIG_XXX_fromBytes` are
big-endian conversions. `toBytes` keeps the value modulo `256^M`, where
`M = MODBYTES`.

In the layouts below, `L` is the G1 length `2M + 1`.

## Model

| member | source | states |
|---|---|---|
| TemplateExpansion.Resolve | cmake/template_expansion.py:26-27 | The lookup succeeds exactly for the curves present in both tables (`BN254`, `BN254CX`, `BLS383`). Any other name raises a `KeyError` carrying that name. A success keeps the curve name itself as the `ZZZ` value. |
| TemplateExpansion.TranslateFileName | cmake/template_expansion.py:23-30 | Translating a path succeeds exactly when the curve is known. An unknown curve raises `KeyError` for that curve, whatever the path. |
| TemplateExpansion.FileNames | cmake/template_expansion.py:32-38 | The name set is produced exactly when every curve of the list is known. Otherwise the `KeyError` names the first unknown curve in list order. Duplicates collapse, so the set never has more names than the list has curves. |
| TemplateExpansion.FileNamesMembers | cmake/template_expansion.py:32-38 | A path is in the name set if and only if some curve of the list translates the template path to it. |
| TemplateExpansion.ExpandTemplate | cmake/template_expansion.py:40-54 | A run ends without error exactly when the list is empty, or the template exists and every curve is known. No file is ever removed. Only paths that some known curve translates the template to can appear or change. Every other file keeps its contents. |
| TemplateExpansion.Copies | cmake/template_expansion.py:66-71 | A replicated line yields one copy per curve, in list order. Copy `i` is the line rewritten for curve `i`. |
| TemplateExpansion.FirstUnknown | cmake/template_expansion.py:41-43 | The index returned is that of the first curve missing from the tables, or the list length when there is none. Every curve before it is known. |
| TemplateExpansion.FirstReplicated | cmake/template_expansion.py:64-65 | The index returned is that of the first `#include` line naming a token, or the line count when there is none. No line before it is replicated. |
| TemplateExpansion.WriteCopies | cmake/template_expansion.py:66-71 | The inner loop raises exactly when some curve is unknown, and the error names the first such curve. The text written is the rewritten copies for the curves before it. |
| TemplateExpansion.WriteHeaderLines | cmake/template_expansion.py:64-73 | The line loop writes exactly the reference text `HeaderText`. It fails exactly when a replicated line meets an unknown curve, and the `KeyError` names the first unknown curve. |
| TemplateExpansion.GenerateTopLevelHeader | cmake/template_expansion.py:56-73 | A missing template raises `FileNotFound` and writes nothing. Otherwise exactly one file changes: the path with only the directory replaced, which then holds `HeaderText` of the template's lines. The error cases are those of the line loop. |
| TemplateExpansion.Invoke | cmake/template_expansion.py:79-101 | The name set is printed exactly when no error occurred, and it is always `FileNames` of the arguments. `--names-only` writes nothing and prints exactly when every curve is known. The default mode leaves the files `ExpandTemplate` leaves and fails with exactly its error. Header mode without the template fails with `FileNotFound` and writes nothing. Header mode with the template writes exactly the header text at the header path, and prints exactly when every curve is known. |
| Text.Interleave | cmake/template_expansion.py:24 | Replacing the empty string (an empty top-level directory) inserts the replacement before every character and once at the end. |
| Text.ReplaceAbsent | cmake/template_expansion.py:45-48 | Replacing a non-empty pattern that does not occur leaves the text unchanged. |
| Text.ReplaceRemovesPattern | cmake/template_expansion.py:45-48 | A non-empty replacement sharing no character with the pattern leaves no occurrence of the pattern. |
| Text.ReplaceKeepsAbsent | cmake/template_expansion.py:45-48 | A non-empty replacement sharing no character with `q` never creates an occurrence of `q` where there was none. |
| Text.ReplaceNoNewOccurrenceAt | cmake/template_expansion.py:45-48 | The same fact as `ReplaceKeepsAbsent`, stated position by position, for a `q` that is either absent or the pattern itself. |
| Text.Lines | cmake/template_expansion.py:58 | `readlines` splits the text into lines whose concatenation is the text. Each line is non-empty, has a newline at most as its last character, and every line but the last ends in a newline. |
| TemplateProperties.LiteralFacts | cmake/template_expansion.py:11-21 | The table values `256_56`, `384_56`, `BN254` and `BLS383` share no character with any of the three tokens. |
| TemplateProperties.CleanCurveLeavesNoToken | cmake/template_expansion.py:45-48 | For `BN254` and `BLS383`, no token survives the three passes, whatever the text. |
| TemplateProperties.CleanCurvePathHasNoToken | cmake/template_expansion.py:23-30 | For `BN254` and `BLS383`, a translated path never names a token. |
| TemplateProperties.RewriteWithoutTokens | cmake/template_expansion.py:45-48 | Text without tokens comes through the three passes unchanged. |
| TemplateProperties.BN254CXRecreatesBigToken | cmake/template_expansion.py:45-48 | For `BN254CX`, the text `ZZZXX` becomes `BN254CXXX`. That output still holds an `XXX`, which no pass removes. |
| TemplateProperties.PassOrderMatters | cmake/template_expansion.py:45-48 | Running the passes in the reverse order gives a different result on that text (`BN254C256_56`). The fixed order `XXX`, `YYY`, `ZZZ` is therefore observable. |
| TemplateProperties.EveryDirectoryOccurrenceMoves | cmake/template_expansion.py:24 | Every occurrence of the top-level directory in the path is replaced, not only a leading one (`s/a/s/XXX` becomes `o/a/o/256_56`). |
| TemplateProperties.SharedBigSuffixCollapses | cmake/template_expansion.py:32-38 | A path naming only `XXX` translates to the same name for `BN254` and `BN254CX`. The printed set then holds that name once. |
| TemplateProperties.LastWriteWins | cmake/template_expansion.py:40-54 | When no translated path is the template itself, the file at a translated path holds the expansion for the last curve of the list that maps there. |
| TemplateProperties.NoLaterWriteKeeps | cmake/template_expansion.py:40-54 | A file at a path that no curve of the list translates to keeps its contents. |
| TemplateProperties.KeyErrorKeepsEarlierWrites | cmake/template_expansion.py:41-54 | An unknown curve stops the expansion with a `KeyError` naming it. The files written for the curves before it stay, and no later curve writes. |
| TemplateProperties.NoCurvesNoWrites | cmake/template_expansion.py:32-54 | An empty curve list writes nothing, raises nothing and prints the empty set. |
| TemplateProperties.EmitAllCopies | cmake/template_expansion.py:64-73 | When no line is replicated, the header output is the lines in order. |
| TemplateProperties.HeaderWithoutTokensIsCopy | cmake/template_expansion.py:56-73 | A template with no `#include` naming a token comes out of header mode byte for byte. |
| TemplateProperties.HeaderWithoutCurves | cmake/template_expansion.py:64-73 | With an empty curve list, every replicated line is dropped and the other lines are kept in order. |
| TemplateProperties.HeaderPathNotPrinted | cmake/template_expansion.py:60-100 | Header mode writes to a path whose tokens are not rewritten. If that path names a token and the curves are `BN254` or `BLS383`, the printed set does not contain the file actually written. |
| TemplateProperties.PrintedNamesRoundTrip | cmake/template_expansion.py:75-77 | Printing the names, each followed by `;`, and splitting at `;` gives back the names in printing order, provided no name contains `;`. |
| RandPool.Init | common/internal-utilities/rand_pool.c:21-30 | The size is the request capped at `MAX_RAND_POOL_SIZE` (255). The callback fills exactly that many leading bytes. The bytes past the size are untouched, and reading starts at byte `0`. |
| RandPool.GetRandomByte | common/internal-utilities/rand_pool.c:32-41 | The callback runs exactly when the read position has reached the size, and reading then restarts at byte `0`. The byte returned is the one just passed over. The pool stays in a valid state and its size never changes. |
| RandPool.ZeroSizeServesStaleByte | common/internal-utilities/rand_pool.c:21-41 | A pool initialised with size `0` never fills anything, yet every draw returns the stale first buffer byte. |
| RandPool.DrawBytes | common/internal-utilities/rand_pool.c:32-41 | Draws that stay within the used part never run the callback. They return the buffer bytes in order and advance the position by their count. |
| RandPool.FreshPoolDrainsThenRefills | common/internal-utilities/rand_pool.c:21-41 | A fresh pool of size `s > 0` hands out its `s` filled bytes in order. The next draw runs the callback. |
| Big.NormCarry | common/amcl-extensions/big_XXX.c:104-107 | A carry pass over 56-bit limbs leaves every limb but the top one in `[0, 2^56)`. The value becomes the old value plus the incoming carry. |
| Big.Norm | common/amcl-extensions/big_XXX.c:104-107 | Normalising in place changes the limbs but not the number they denote. |
| Big.NormIdempotent | test/big_XXX-tests.c:204-242 | Normalising a second time changes nothing. |
| Big.ModMulAndAdd | common/amcl-extensions/big_XXX.c:95-114 | The output is `(summand + m1 * m2) mod modulus` and lies below the modulus. The caller's summand is left normalised with its value unchanged. Both multiplicands are left normalised with the same limb count, holding their values reduced modulo the modulus. |
| Big.NormalizesInputs | test/big_XXX-tests.c:204-242 | Inputs below the modulus come back equal to their normalised copies, and the output equals the one computed from those copies. |
| Big.ModMulAndAddCongruent | test/big_XXX-tests.c:243-292 | Summands and factors congruent modulo the modulus give the same output. This covers inputs at or above the modulus. |
| Big.SmallSanityCase | test/big_XXX-tests.c:293-314 | `4 + 9 * 15 mod 13 = 9`. |
| Big.AllOnesCase | test/big_XXX-tests.c:161-182 | `1 + 1 * 1` is `2` modulo any order above `2`. |
| Big.ModulusTwoCase | test/big_XXX-tests.c:184-203 | The even total of the test's inputs is `0` modulo `2`. |
| Big.AbsorbAppend | common/amcl-extensions/big_XXX.c:44-93 | Feeding a concatenation byte by byte is feeding its parts one after the other. |
| Big.Feed | common/amcl-extensions/big_XXX.c:36-39 | The byte loop leaves the hash state reached by feeding the whole message in order. |
| Big.FromHash | common/amcl-extensions/big_XXX.c:29-42 | The bignum is the digest of the message read big-endian. It is below `2^256` when the digest has 32 bytes. |
| Big.FromTwoMessageHash | common/amcl-extensions/big_XXX.c:44-64 | Hashing two messages equals hashing their concatenation. |
| Big.FromThreeMessageHash | common/amcl-extensions/big_XXX.c:66-93 | Hashing three messages equals hashing the three joined. |
| Bytes.FromToBytes | libecdaa/member_keypair_ZZZ.c:198-234 | Writing a bignum in `M` bytes and reading it back gives the value modulo `256^M`. |
| Bytes.ToFromBytes | libecdaa/member_keypair_ZZZ.c:198-234 | Reading any `M`-byte buffer and writing the value back reproduces the buffer. |
| Curve.Status | src/amcl-extensions/ecp_ZZZ.c:44-93 | A point decoder's integer result is `0` exactly on success, `-2` exactly for a bad encoding and `-1` exactly for a bad point. |
| Ecp.Reduce | src/amcl-extensions/ecp_ZZZ.c:44-93 | The stored point has both coordinates below the prime. A point already reduced is stored unchanged. |
| Ecp.Serialize | src/amcl-extensions/ecp_ZZZ.c:34-42 | The encoding has `2M + 1` bytes and starts with `0x04`. The two `M`-byte fields read back as the reduced coordinates. |
| Ecp.Deserialize | src/amcl-extensions/ecp_ZZZ.c:44-93 | `-2` exactly when the first byte is not `0x04`. Success exactly when both coordinates are at most the prime and the reduced point passes the G1 test (on the curve, not the identity, not killed by the cofactor). The point returned is the reduced one. |
| Ecp.SerializeThenDeserialize | src/amcl-extensions/ecp_ZZZ.c:34-93 | Encoding then decoding gives back the reduced point when it passes the G1 test, and `-1` otherwise. |
| Ecp.DeserializeThenSerialize | src/amcl-extensions/ecp_ZZZ.c:34-93 | A buffer that decodes is reproduced by re-encoding exactly when neither coordinate was written as the prime itself. |
| Ecp.ModulusAliasesZero | src/amcl-extensions/ecp_ZZZ.c:59-70 | A coordinate equal to the prime passes the range check. Its encoding and the encoding with `0` there are different buffers that always decode alike. |
| Ecp.GeneratorRoundTrip | src/amcl-extensions/ecp_ZZZ.c:26-93 | The G1 generator round-trips. |
| Ecp2.ReduceFp2 | src/amcl-extensions/ecp2_ZZZ.c:54-113 | Both halves of a stored field element are below the prime. One already reduced is unchanged. |
| Ecp2.Reduce | src/amcl-extensions/ecp2_ZZZ.c:54-113 | All four coordinates of the stored G2 point are below the prime. A point already reduced is unchanged. |
| Ecp2.Serialize | src/amcl-extensions/ecp2_ZZZ.c:42-52 | The encoding has `4M + 1` bytes and starts with `0x04`. The four `M`-byte fields read back as the reduced coordinates. |
| Ecp2.BodyRoundTrip | src/amcl-extensions/ecp2_ZZZ.c:42-52 | The coordinate blocks sit at `0`, `M`, `2M`, `3M` after the prefix, in the order `x.a`, `x.b`, `y.a`, `y.b`. |
| Ecp2.Deserialize | src/amcl-extensions/ecp2_ZZZ.c:54-113 | `-2` exactly when the first byte is not `0x04`. Success exactly when all four coordinates are at most the prime and the reduced point passes the G2 test (on the curve, not the identity, killed by the group order). The point returned is the reduced one. |
| Ecp2.SerializeThenDeserialize | src/amcl-extensions/ecp2_ZZZ.c:42-113 | Encoding then decoding gives back the reduced point when it passes the G2 test, and `-1` otherwise. |
| Ecp2.BufferOfCoordinates | src/amcl-extensions/ecp2_ZZZ.c:54-113 | A buffer starting with `0x04` is exactly the prefix followed by the four coordinates it holds, re-encoded. |
| Ecp2.DeserializeThenSerialize | src/amcl-extensions/ecp2_ZZZ.c:42-113 | A buffer that decodes is reproduced by re-encoding exactly when no coordinate was written as the prime itself. |
| Ecp2.GeneratorRoundTrip | src/amcl-extensions/ecp2_ZZZ.c:26-113 | The G2 generator round-trips. |
| GroupKey.Serialize | libecdaa/group_public_key_ZZZ.c:30-35 | The encoding has `ECDAA_GROUP_PUBLIC_KEY_ZZZ_LENGTH` bytes. |
| GroupKey.Deserialize | libecdaa/group_public_key_ZZZ.c:61-73 | `X` is decoded from the first G2 block and `Y` from the second, the second even when the first fails. The code is `0` exactly when both decode and `-1` otherwise. The `-2` that the header lists for a point outside G2 is never returned. |
| GroupKey.RoundTrip | libecdaa/group_public_key_ZZZ.c:30-73 | Two reduced points that pass the G2 test come back unchanged with code `0`. |
| GroupKey.GeneratorsRoundTrip | libecdaa/group_public_key_ZZZ.c:30-73 | A key made of the G2 generator twice round-trips. |
| GroupKey.FormatErrorReportedAsBadPoint | libecdaa/group_public_key_ZZZ.c:61-73 | A bad prefix on either half is reported as `-1`, although the point decoder reported `-2`. |
| GroupKey.SubgroupFailureReportedAsBadPoint | libecdaa/include/ecdaa/group_public_key_ZZZ.h:68-71 | A first half encoding a point that is on the curve and not the identity, but is not killed by the group order, lies outside G2. The header documents `-2` for that case, but the decoder returns `-1`. |
| MemberKeys.Serialize | libecdaa/member_keypair_ZZZ.c:89-96 | The encoding has `ECDAA_MEMBER_PUBLIC_KEY_ZZZ_LENGTH` bytes. |
| MemberKeys.DeserializeNoCheck | libecdaa/member_keypair_ZZZ.c:163-179 | `Q` is decoded from the first `L` bytes, and `c`, `s`, `n` are read at `L`, `L + M`, `L + 2M` whether or not `Q` decodes. The code is `-1` exactly when `Q` fails. |
| MemberKeys.Validate | libecdaa/member_keypair_ZZZ.c:65-87 | `0` exactly when the proof checks, with the G1 generator as base and no basename. `-1` otherwise. |
| MemberKeys.Deserialize | libecdaa/member_keypair_ZZZ.c:122-143 | The fields are those of the unchecked decoder. `-1` exactly when `Q` fails, and the proof is then not consulted. `-2` exactly when `Q` decodes but the proof fails. `0` exactly when both succeed. |
| MemberKeys.RoundTrip | libecdaa/member_keypair_ZZZ.c:89-179 | An encoded key decodes to its bignums modulo `256^M` and to its point as the point decoder gives it. A key whose point passes the G1 test and whose bignums fit comes back exactly, with code `0`. |
| MemberKeys.SerializeSecret | libecdaa/member_keypair_ZZZ.c:198-202 | The encoding has `ECDAA_MEMBER_SECRET_KEY_ZZZ_LENGTH` bytes. |
| MemberKeys.DeserializeSecret | libecdaa/member_keypair_ZZZ.c:228-234 | Every buffer is accepted (code `0`), and the value read fits in `M` bytes. |
| MemberKeys.SecretRoundTrip | libecdaa/member_keypair_ZZZ.c:198-234 | The secret key codec keeps the value modulo `256^M` and reproduces every buffer. |
| IssuerKeys.Serialize | libecdaa/issuer_keypair_ZZZ.c:72-80 | The encoding has `ECDAA_ISSUER_PUBLIC_KEY_ZZZ_LENGTH` bytes. |
| IssuerKeys.Validate | libecdaa/issuer_keypair_ZZZ.c:61-70 | `0` exactly when the issuer's proof checks against `X` and `Y`. `-1` otherwise. |
| IssuerKeys.Deserialize | libecdaa/issuer_keypair_ZZZ.c:116-138 | The group key is decoded from the first block. `c`, `sx`, `sy` are read after it at steps of `M`, even when the group key fails. The proof is always checked. `-2` exactly when the proof fails, overriding the group key's `-1`. `-1` exactly when the proof checks but the group key failed. `0` exactly when both succeed. |
| IssuerKeys.RoundTrip | libecdaa/issuer_keypair_ZZZ.c:72-138 | A key with reduced G2 points that pass the G2 test and fitting bignums decodes to its own fields. The code is `0` when `Validate` accepts it and `-2` otherwise. |
| IssuerKeys.DecodeOfParts | libecdaa/issuer_keypair_ZZZ.c:116-138 | On a group key encoding followed by three fields, the decoder reports what the group key decoder and the field reads give, with the same code rules. |
| IssuerKeys.SerializeSecret | libecdaa/issuer_keypair_ZZZ.c:176-181 | The encoding has `ECDAA_ISSUER_SECRET_KEY_ZZZ_LENGTH` bytes. |
| IssuerKeys.DeserializeSecret | libecdaa/issuer_keypair_ZZZ.c:214-221 | Every buffer is accepted (code `0`), and both values fit in `M` bytes. |
| IssuerKeys.SecretRoundTrip | libecdaa/issuer_keypair_ZZZ.c:176-221 | The secret key codec keeps `x` and `y` modulo `256^M` and reproduces every buffer. |
| Credentials.Serialize | libecdaa/credential_ZZZ.c:160-167 | The encoding has `ECDAA_CREDENTIAL_ZZZ_LENGTH` bytes. |
| Credentials.Deserialize | libecdaa/credential_ZZZ.c:299-317 | `A`, `B`, `C`, `D` are decoded from the G1 blocks at `0`, `L`, `2L`, `3L`, none skipped after a failure. The code is `0` exactly when all four decode and `-1` otherwise. |
| Credentials.SerializeSignature | libecdaa/credential_ZZZ.c:193-198 | The encoding has `ECDAA_CREDENTIAL_ZZZ_SIGNATURE_LENGTH` bytes. |
| Credentials.ReadSignature | libecdaa/credential_ZZZ.c:224-247 | Both values read fit in `M` bytes. |
| Credentials.SignatureRoundTrip | libecdaa/credential_ZZZ.c:193-247 | The signature codec keeps `c` and `s` modulo `256^M` and reproduces every buffer. |
| Credentials.Validate | libecdaa/credential_ZZZ.c:111-158 | `0` exactly when the issuer's proof and both pairing equations hold. `-1` otherwise. |
| Credentials.DeserializeWithSignature | libecdaa/credential_ZZZ.c:224-247 | The credential is the plain decoder's and the signature is read as above. `-1` exactly when the credential does not decode, and the checks are then skipped. `-2` exactly when it decodes and a check fails. `0` exactly when it decodes and every check passes. |
| Credentials.RoundTrip | libecdaa/credential_ZZZ.c:160-167 | Four reduced points that pass the G1 test come back unchanged with code `0`. |
| Credentials.IssuedCredentialAccepted | libecdaa/credential_ZZZ.c:160-247 | An issued credential, encoded and read back with its encoded signature, is accepted exactly when the three checks pass on the original values. |
| Signatures.Points | libecdaa/signature_ZZZ.c:159-162 | The four encoded points `R`, `S`, `T`, `W` take `4L` bytes. |
| Signatures.Head | libecdaa/signature_ZZZ.c:154-166 | The encoding without the pseudonym has `ECDAA_SIGNATURE_ZZZ_LENGTH` bytes. |
| Signatures.Serialize | libecdaa/signature_ZZZ.c:154-171 | The encoding has `ECDAA_SIGNATURE_ZZZ_WITH_NYM_LENGTH` bytes with a pseudonym and `ECDAA_SIGNATURE_ZZZ_LENGTH` bytes without. |
| Signatures.SerializeLayout | libecdaa/include/ecdaa/signature_ZZZ.h:89-101 | The encoding holds `c` at `0`, `s` at `M`, the point block at `2M` and `n` at `2M + 4L`, with or without a pseudonym. |
| Signatures.PointsLayout | libecdaa/signature_ZZZ.c:159-162 | Within the point block, `R`, `S`, `T`, `W` sit at `0`, `L`, `2L`, `3L`. |
| Signatures.Deserialize | libecdaa/signature_ZZZ.c:213-244 | `c`, `s`, `n` are read at `0`, `M`, `2M + 4L`, and `R`, `S`, `T`, `W` are decoded at `2M + kL`, every field even after a failure. With a pseudonym, `K` is decoded at `3M + 4L`. Without one, `K` is the G1 generator. The code is `0` exactly when every decoded point succeeded and `-1` otherwise. |
| Signatures.AccessPseudonym | libecdaa/signature_ZZZ.c:323-330 | The pseudonym starts where a signature without one ends and runs to the end of the longer encoding. |
| Signatures.PseudonymInSerialized | libecdaa/signature_ZZZ.c:154-244 | The span the accessor names holds exactly the encoding of `K`. It is also where the decoder reads `K`. |
| Signatures.ShortEncodingIsPrefix | libecdaa/signature_ZZZ.c:154-171 | The encoding without a pseudonym is a prefix of the one with it. |
| Signatures.RoundTrip | libecdaa/signature_ZZZ.c:154-244 | Decoding an encoded signature gives its bignums modulo `256^M` and, when its points pass the G1 test, exactly its points with code `0`. Without a pseudonym the decoded `K` is the generator, whatever the original `K` was. |
| Signatures.HeadRoundTrip | libecdaa/signature_ZZZ.c:154-239 | The part before the pseudonym decodes to the bignums modulo `256^M` and to the four points. |
| Signatures.PointsRoundTrip | libecdaa/signature_ZZZ.c:159-236 | Four encoded points that pass the G1 test decode to themselves. |
| Signatures.Verify | libecdaa/signature_ZZZ.c:82-152 | `0` exactly when the Schnorr-type proof and both pairing equations hold, no revoked secret key `sk` has `sk * S == W`, and no revoked pseudonym equals `K`. `-1` otherwise. Every check runs and both lists are scanned in full. |
| Signatures.DeserializeAndVerify | libecdaa/signature_ZZZ.c:292-315 | The signature is the decoder's. `-1` exactly when it does not decode, and it is then not verified. `-2` exactly when it decodes and `verify` rejects it. `0` exactly when `verify` accepts it. |
| Signatures.VerifyEncoded | libecdaa/signature_ZZZ.c:154-315 | A signature whose points pass the G1 test and whose bignums fit is, once encoded, accepted exactly when `verify` accepts the original. Without a pseudonym, `K` is replaced by the generator. |

## Left out

- The `_file` and `_fp` variants of every codec: they read or write a whole buffer through the C standard I/O library, then call the modelled codec.
- The key, credential and signature generation functions (`generate`, `sign`, `randomize_credential`, `random_mod_order`): they need randomness and real curve arithmetic.
- Curve arithmetic, the pairing, the Schnorr-type proofs and SHA-256: they are uninterpreted operations. This covers `Curve.Curve`, `Schnorr.Verifiers` and `Big.Hasher`. Every property here holds for any implementation of them.
- The library's own round trips on concrete points (the all-`0x01` buffers of the G2 and group key tests, and the generator checks): they depend on the concrete curve constants. The model states generator round trips under the `Curve.Trusted` assumption that the stored generators pass their own group test.
- AMCL's `BIG_XXX_toBytes`, `fromBytes`, `modmul`, `add` and `mod`: they are taken as exact big-endian conversion and integer arithmetic on unbounded values. Only `BIG_XXX_norm` is spelled out limb by limb. AMCL itself is not part of this model. That `modmul` reduces both multiplicands in place is taken from the comment at `common/amcl-extensions/big_XXX.c:101` and the header.
- Big.ModMulAndAdd: the header says every input is reduced modulo the modulus after return, but the code only normalises the summand (`BIG_XXX_norm` at `common/amcl-extensions/big_XXX.c:107`). The model follows the code, so a summand at or above the modulus comes back with its value unchanged.
- Python's set iteration order for the printed names: it is unspecified. `TemplateProperties.PrintedNamesRoundTrip` holds for any order the set is printed in.
- `os.makedirs` and text-mode newline translation: writing is modelled as a map update, and the template is taken as the text Python reads.
- TemplateExpansion.Invoke: every option is assumed present. `argparse` defaults a missing `--template`, `--out-dir` or `--top-level-dir` to `None`. With a non-empty curve list, Python then raises `TypeError` or `AttributeError` in `open` or `str.replace` (lines 24 and 42). The model takes each option as a path.
- TemplateExpansion.ExpandTemplate: every output path is assumed to have a directory part. `os.makedirs('')` at line 51 raises `FileNotFoundError` for a bare file name, and the model writes the file instead.
- TemplateExpansion.GenerateTopLevelHeader: the header path is assumed to have a directory part, for the same reason at line 61.
- Schnorr.Verifiers: the issuer-proof oracle receives the decoded group key halves as results. After a failed decode, the C code checks the proof over whatever bytes the key structure holds. The model does not say what those are.
- The `--curves` option left out entirely: Python then iterates `None` and raises `TypeError` before writing. The model takes the curve list as a sequence.
- The legacy `BN254`-only copies of the sources, the TPM back end, `prng` and the command-line tools: they are outside the modelled core.
- The hash determinism cases of `test/big_XXX-tests.c`: hashing the same message twice gives the same bignum because `Big.HashOf` is a function, so they are not restated as lemmas.
