# A verified model of poprf-ristretto

This project models the partially oblivious pseudorandom function of RFC 9497 (section 3.3.3) as the
crate `poprf-ristretto` implements it over ristretto255-SHA512, with its batched proofs of equal discrete
logarithms (sections 2.2.1 and 2.2.2), its wire formats, its pre-hashed tables and its C interface, and
proves what client and server promise each other.

## How the system is modelled

- **Suite.** The curve library and the hashes are the function-valued fields of `Group.Suite`. `Group.Lawful`
  states what is relied on: an abelian group of prime order with a generator, scalar multiplication equal to
  repeated addition, a 32-byte encoding whose decoder accepts canonical strings only, 64-byte digests. Every
  other fact about scalars and elements (inverses, no torsion, discrete logarithms, sums of any length) is
  proved. The hash-to-curve expansion, the map to the group and SHA-512 are arbitrary functions, so security
  statements read "the claim holds, or these two strings collide" or "the hash hit this one value".
- **Protocol.** `Dleq` and `Poprf` hold the operations. What the source computes with loops, buffers or a
  random number generator is a method proved against a specification function; what it computes with
  expressions is a function. The flag `fast` is the feature `fast-dleq`. The newtypes around a point or a
  scalar are the point or the scalar itself.
- **Theorems.** `DleqTheorems`, `DleqSoundness`, `PoprfTheorems`, `Exchange` and `Verifiability` relate the
  operations to each other. `Exchange.Exchanged` is one batched exchange with every message serialized and
  parsed again.
- **Soundness over all hashes.** `HashChoice` quantifies over the suites that differ in scalar hashes only: a
  list is honest exactly when all of them have an accepted proof of it.
- **Layouts.** `Layout` spells out every string that is sent or hashed, position by position and independently of
  the functions that build it; `Outcomes` says what each operation comes to over those strings, with the group equation a
  result solves in place of the code that solves it, and every error with its inputs.
- **Tables.** A `Tables.Hasher` is a mutable hash state that accumulates bytes; evaluating tables clones it.
- **C interface.** `Ffi.Step` says what one call does to a thread's error slot and to the live objects,
  `FfiCalls.Thread` carries the calls out over out-slot arrays and shared table objects, `FfiOutcomes` says what
  each call comes to in terms of the library, and `FfiRuns` proves what holds along every run. Handles are
  numbers, zero is NULL, and the allocator may give any handle not in use. A C string is its bytes.
- **Instance.** The integers modulo 5 meet `Lawful`.

## Where the code does less than its documentation says

- `lib.rs` says that a client and a server that disagree on `info` get `Verify`. When the server used
  another info, that is so exactly unless both infos hash to the same scalar or two named transcripts, the
  client's and the server's, collide (`Verifiability.ServerInfoMismatch`). But finalization takes the
  tweaked key from the states and does not compare its own `info` with it: an honest exchange finalized
  under another info is accepted. `Verifiability.FinalizeInfoMismatch` gives, for each output, the exact
  condition under which it is right, `Instance.MismatchedFinalizeIsAccepted` an exchange in which it is not.
- `blind_with_scalar` accepts the zero scalar. `Exchange.BatchEndToEnd` shows that the exchange succeeds
  exactly when no blind is zero, `Instance.ZeroBlindIsAccepted` is a concrete case.
- The batch index is truncated to two bytes in a release build. Completeness does not depend on it;
  `DleqTheorems.WeightInputInjective` says exactly which weights of larger batches share their hash input.

## Model

| member | source | states |
|---|---|---|
| PrimeField.InvertIsInverse | poprf-ristretto/src/group.rs:93-95 | Inverting a nonzero scalar gives its multiplicative inverse modulo the prime order, by Bezout; the inverse is nonzero |
| PrimeField.NoZeroDivisors | poprf-ristretto/src/group.rs:88-90 | A product of scalars is zero only if a factor is |
| PrimeField.LinearEquation | poprf-ristretto/src/group.rs:88-95 | `d*x = n` modulo the order has exactly the solution `n * invert(d)` for nonzero `d` |
| Bytes.I2osp2IsBigEndian | poprf-ristretto/src/util.rs:40-50 | The encoding is the two big-endian digits of the number modulo 65536 |
| Bytes.I2osp2Injective | poprf-ristretto/src/util.rs:47-50 | Two numbers have the same two-byte encoding exactly when they agree modulo 65536: larger values are truncated |
| Bytes.LpInjective | poprf-ristretto/src/util.rs:52-57 | A length-prefixed string of less than 65536 bytes and what follows it can be read back |
| Bytes.Buffer.AppendLp | poprf-ristretto/src/util.rs:52-57 | Appending extends the buffer in place by the two-byte length and the bytes, and nothing else changes |
| Bytes.ScalarRoundTrip | poprf-ristretto/src/group.rs:166-180 | Every scalar below the order is parsed back from its 32 little-endian bytes |
| Bytes.ScalarParsing | poprf-ristretto/src/group.rs:172-180 | Scalar parsing accepts exactly the encodings of scalars below the order, and reports `Deserialize` for everything else |
| Group.MulMul | poprf-ristretto/src/group.rs:40-42 | Scalar multiplication, being repeated addition, composes: `(a*b)*P = a*(b*P)` for all integers |
| Group.MulIsIdentity | poprf-ristretto/src/group.rs:40-42 | A multiple is the identity exactly when the scalar is zero modulo the order or the element is the identity |
| Group.GeneratorInjective | poprf-ristretto/src/group.rs:44-47 | Multiples of the generator are equal exactly for congruent scalars |
| Group.ElementRoundTrip | poprf-ristretto/src/group.rs:144-164 | A serialized element parses back exactly when it is not the identity, which is refused with `InputValidation` |
| Group.ElementParsing | poprf-ristretto/src/group.rs:150-164 | Element parsing returns the one element whose encoding was read, refuses the identity's encoding with `InputValidation`, and every other string with `Deserialize` |
| Group.MsmSnoc | poprf-ristretto/src/group.rs:182-191 | A multi-scalar product grows by a term added on the left, whatever the order of summation |
| Group.MsmScale | poprf-ristretto/src/group.rs:182-191 | A common factor of the points comes out of a multi-scalar product |
| Random.Rng.RandomScalar | poprf-ristretto/src/group.rs:128-136 | Draws until nonzero: the result is the first nonzero draw, all earlier ones were zero; terminates when a nonzero draw is to come |
| Key.SecretKeyRoundTrip | poprf-ristretto/src/key.rs:42-56 | A scalar is parsed back as a secret key exactly when it is nonzero; zero is `InputValidation` |
| Key.SecretKeyCanonical | poprf-ristretto/src/key.rs:50-56 | Bytes accepted as a secret key are its encoding |
| Key.PublicKeyRoundTrip | poprf-ristretto/src/key.rs:62-95 | The public key of a nonzero secret key is not the identity and parses back from its bytes |
| Key.GenerateKeyPair | poprf-ristretto/src/key.rs:117-121 | The secret key is the first nonzero draw and the public key its multiple of the generator |
| Key.DeriveKeyPair | poprf-ristretto/src/key.rs:128-146 | The loop over 256 counters terminates and gives the key of the first nonzero candidate, each hashed as `Layout.CandidateMeans` says |
| Key.DerivedIsFirst | poprf-ristretto/src/key.rs:123-146 | Derivation gives the first nonzero candidate among counters 0 to 255 with its non-identity public key, `DeriveKeyPair` exactly when all 256 are zero, `InputTooLong` for an oversized info |
| Key.DeriveInputInjective | poprf-ristretto/src/key.rs:131-138 | The strings that candidates are hashed from are equal exactly for equal seed, info and counter |
| Dleq.ProofRoundTrip | poprf-ristretto/src/dleq.rs:50-66 | A proof of two reduced scalars is parsed back from the 64 bytes that `Layout.ProofLayout` spells out |
| Dleq.ProofCanonical | poprf-ristretto/src/dleq.rs:59-66 | Bytes accepted as a proof are its encoding |
| Dleq.CompositeSeed | poprf-ristretto/src/dleq.rs:273-283 | The seed is the hash of the framed public element and the framed seed tag |
| Dleq.ComputeComposites | poprf-ristretto/src/dleq.rs:236-271 | Both builds, the accumulating loop and the collected weights with `msm`, give the sums of both lists weighted as `Layout.WeightMeans` says; the loop truncates lists of unequal length, which `msm` refuses |
| Dleq.ComputeCompositesFast | poprf-ristretto/src/dleq.rs:199-233 | Both builds of the prover give the verifier's first sum, and its multiple by the witness |
| Dleq.GenerateProofWithR | poprf-ristretto/src/dleq.rs:116-151 | The proof is the challenge of the transcript of the prover's commitments and the response `r - c*k`, in both builds |
| Dleq.VerifyProof | poprf-ristretto/src/dleq.rs:154-194 | Accepts exactly when the challenge equals the hash of the rebuilt transcript, in both builds; otherwise `Verify` |
| DleqTheorems.CompositesAgree | poprf-ristretto/src/dleq.rs:231-255 | The prover's `k*M` is the verifier's weighted sum when every pair has witness `k` |
| DleqTheorems.TranscriptsAgree | poprf-ristretto/src/dleq.rs:126-185 | Prover and verifier build the same transcript, for every batch length, when every pair has witness `k` |
| DleqTheorems.Completeness | poprf-ristretto/src/dleq.rs:116-194 | The verifier accepts every honest proof, for every witness, nonce and batch length |
| DleqTheorems.AcceptedIsHonest | poprf-ristretto/src/dleq.rs:145-194 | For a true claim the accepted proofs are exactly what the prover gives for the nonce `s + c*k` |
| DleqTheorems.TranscriptInjective | poprf-ristretto/src/dleq.rs:135-143 | A challenge transcript determines its five elements |
| DleqTheorems.WeightInputInjective | poprf-ristretto/src/dleq.rs:286-309 | The inputs of two weights are equal exactly when the pairs are equal and the indices agree modulo 65536 |
| DleqTheorems.WeightInputsDistinct | poprf-ristretto/src/dleq.rs:286-309 | In a batch of at most 65536 pairs all weights are hashed from distinct strings |
| DleqSoundness.OneAnswerableChallenge | poprf-ristretto/src/dleq.rs:163-187 | For a false claim `Z != k*M` and any commitments, exactly one challenge has a response that satisfies the verifier's two equations |
| DleqSoundness.FalseClaimNeedsBadChallenge | poprf-ristretto/src/dleq.rs:154-194 | A proof of a false claim with given commitments exists exactly when the transcript's hash is that one challenge |
| DleqSoundness.WitnessExtracted | poprf-ristretto/src/dleq.rs:163-169 | Two answers to different challenges for the same commitments yield the witness `(s-s')/(c'-c)` of both equations |
| DleqSoundness.OneHidingWeight | poprf-ristretto/src/dleq.rs:236-271 | If pair `j` is dishonest, exactly one weight of it makes the combined claim true, whatever the other weights are |
| DleqSoundness.ResponseUnique | poprf-ristretto/src/dleq.rs:161-193 | Two accepted proofs with one challenge and different responses exhibit two different transcripts with the same hash |
| HashChoice.WishesAreGranted | poprf-ristretto/src/dleq.rs:286-309 | Any scalars are the weights of a batch of at most 65536 pairs, and any function of the commitments its challenge, for some lawful suite that differs in scalar hashes only |
| HashChoice.DishonestIsRefused | poprf-ristretto/src/dleq.rs:154-194 | For a list of at most 65536 pairs with a dishonest one, some choice of the scalar hashes leaves no proof that is accepted |
| HashChoice.HonestExactlyWhenProvable | poprf-ristretto/src/dleq.rs:154-194 | For at most 65536 pairs, as many as the index numbers: all pairs of a list have the key's witness exactly when, for every choice of the scalar hashes, some proof is accepted |
| HashChoice.AnswerExactlyWhenProvable | poprf-ristretto/src/poprf.rs:560-566 | For at most 65536 elements: a list is the server's answer for scalar `t` exactly when, for every choice of the scalar hashes, some proof of it is accepted for the key `t*G` |
| Poprf.BlindRandomly | poprf-ristretto/src/poprf.rs:285-293 | The blind is the first nonzero draw, so a successful request has a nonzero blind below the order |
| Poprf.CheckInputs | poprf-ristretto/src/poprf.rs:381-385 | Fails with `InputTooLong` exactly when the info or some input exceeds the cap |
| Poprf.CheckStates | poprf-ristretto/src/poprf.rs:393-398 | Fails with `InconsistentState` exactly when some tweaked key differs from the first |
| Poprf.FinalizeBatch | poprf-ristretto/src/poprf.rs:365-409 | Gives the first failing check in order, or one unblinded and hashed output for each input |
| Poprf.PrepareBatch | poprf-ristretto/src/poprf.rs:548-556 | Refuses an empty batch, then an identity element, then an oversized info or a zero scalar |
| Poprf.BlindEvaluateBatchWithR | poprf-ristretto/src/poprf.rs:583-609 | Gives `(1/t)*blinded` for every element and the proof for witness `t`, or the first failing check |
| Poprf.BlindEvaluateBatchWithProofScalar | poprf-ristretto/src/poprf.rs:573-581 | The same for a nonce that is parsed from bytes |
| Poprf.BlindEvaluateBatch | poprf-ristretto/src/poprf.rs:542-568 | The same for the first nonzero draw; on an error nothing is drawn |
| Poprf.BlindEvaluateOneWithR | poprf-ristretto/src/poprf.rs:523-539 | Evaluating one element is evaluating a batch of one |
| PoprfTheorems.TweakedKey | poprf-ristretto/src/poprf.rs:321-326 | The client's tweaked key is the public form of the server's scalar `sk + m`, `m` being the scalar of the info |
| PoprfTheorems.TweakedKeyIsIdentity | poprf-ristretto/src/poprf.rs:326-329 | The tweaked key is the identity exactly when the server reports `Inverse` |
| PoprfTheorems.RequestsAgree | poprf-ristretto/src/poprf.rs:311-341 | Blinding succeeds exactly when the server can evaluate the input alone; then the state holds `t*G` and the element `blind*P` |
| PoprfTheorems.RefusalsAgree | poprf-ristretto/src/poprf.rs:612-663 | Which error each side reports: oversized strings, an identity input, or a key that is not invertible for the info |
| PoprfTheorems.UnblindUndoesBlind | poprf-ristretto/src/poprf.rs:411-422 | Unblinding an evaluation of a blinded element gives the evaluation of the element, for every nonzero blind |
| PoprfTheorems.BlindingIsBijective | poprf-ristretto/src/poprf.rs:336 | For a non-identity element, blinding is a bijection from nonzero scalars to non-identity elements |
| PoprfTheorems.PerfectBlinding | poprf-ristretto/src/poprf.rs:331-340 | A blinded element is explained by exactly one nonzero blind for any other accepted input |
| PoprfTheorems.FinalizeInputInjective | poprf-ristretto/src/poprf.rs:686-706 | The hashed string determines input, info and element, for all lengths the cap admits |
| PoprfTheorems.OutputsBind | poprf-ristretto/src/poprf.rs:612-624 | Outputs for different inputs or infos, under any keys, are equal exactly when the two strings they are digests of collide |
| PoprfTheorems.StateRoundTrip | poprf-ristretto/src/poprf.rs:224-241 | A client state is parsed back exactly when its tweaked key is not the identity |
| PoprfTheorems.StateCanonical | poprf-ristretto/src/poprf.rs:234-241 | Bytes accepted as a state are its encoding |
| PoprfTheorems.HonestMessagesParse | poprf-ristretto/src/poprf.rs:47-75 | The state, blinded element, evaluated element and proof of an honest request with a nonzero blind all parse back |
| Exchange.NonzeroBlindsSucceed | poprf-ristretto/src/poprf.rs:365-409 | From successful requests with nonzero blinds to outputs: every message survives the wire, both batch calls succeed, outputs are the server's own |
| Exchange.ServerAnswers | poprf-ristretto/src/poprf.rs:542-568 | The server's answer to non-identity elements succeeds, survives the wire and is accepted |
| Exchange.BatchEndToEnd | poprf-ristretto/src/poprf.rs:285-624 | The whole exchange, for every key, batch, info, blinds and nonce: an impossible request ends in the error blinding gives for the first refused input, a zero blind in `InputValidation`, and otherwise output `i` is `evaluate(inputs[i], info)` |
| Verifiability.RelationFixesAnswer | poprf-ristretto/src/poprf.rs:560-566 | The proved relation admits exactly one list of evaluated elements, the server's |
| Verifiability.RelatedAnswersAreEvaluations | poprf-ristretto/src/poprf.rs:386-409 | Accepted answers that satisfy the relation give the server's own outputs |
| Verifiability.WrongOutputNeedsAccident | poprf-ristretto/src/poprf.rs:386-409 | If finalization accepts and an output is wrong, a pair is dishonest and its weight or the challenge equals the one value that hides it |
| Verifiability.FinalizeOneIsBatchOfOne | poprf-ristretto/src/poprf.rs:347-362 | Finalizing one token is finalizing a batch of one, errors included |
| Verifiability.ConsistentStatesShareScalar | poprf-ristretto/src/poprf.rs:393-398 | States for one key under any mix of infos pass the consistency check exactly when all infos hash to the same scalar |
| Verifiability.SharedScalarSharesKey | poprf-ristretto/src/poprf.rs:654-663 | Then the server evaluates all of them with the same scalar |
| Verifiability.AcceptedAcrossScalars | poprf-ristretto/src/dleq.rs:154-194 | An honest answer for one evaluation scalar is accepted for another exactly when the transcript the client rebuilds and the one the server hashed differ and have the same hash |
| Verifiability.ServerInfoMismatch | poprf-ristretto/src/lib.rs:77-80 | If the server evaluated under another info, finalizing a batch gives `Verify`, unless both infos hash to the same scalar, when all outputs are right, or those two transcripts collide |
| Verifiability.FinalizeInfoMismatch | poprf-ristretto/src/poprf.rs:365-409 | A batch of any length finalized under another info than its states' is always accepted, and output `i` is the server's output for that info exactly when both infos hash to the same scalar or the hash collides on the two elements of input `i` |
| Tables.LpHasher | poprf-ristretto/src/poprf.rs:693-696 | The hash state has absorbed the framed input |
| Tables.FinalizeFrom | poprf-ristretto/src/poprf.rs:698-706 | Finishing a state appends the framed info, the framed element and the label, and consumes the state |
| Tables.FinalizeHash | poprf-ristretto/src/poprf.rs:686-691 | The incremental hash is the hash of the whole string |
| Tables.NewInputTable | poprf-ristretto/src/poprf.rs:171-186 | A new table holds the input's prefix state, length and base point, or the same errors as evaluation |
| Tables.TablesAgree | poprf-ristretto/src/poprf.rs:626-648 | Each slot of a table evaluation is what evaluating that slot's input gives, and a failure is the failure of each |
| Tables.TableThenEvaluate | poprf-ristretto/src/poprf.rs:174-186 | Building a table and evaluating it alone is `evaluate`, including which error |
| Tables.EvaluateTables | poprf-ristretto/src/poprf.rs:630-648 | Evaluates from clones of the prefix states: the outputs are those of the tables' contents and no table changes |
| Layout.TagsAre | poprf-ristretto/src/util.rs:73-86 | The four tags byte by byte, with their lengths; no two are equal |
| Layout.DigitsAre | poprf-ristretto/src/group.rs:166-170 | Byte `i` of a serialized number is its digit of weight `256^i`: least significant first |
| Layout.CapIs | poprf-ristretto/src/util.rs:18-32 | 65534 bytes are accepted, 65535 are `InputTooLong` |
| Layout.ProofLayout | poprf-ristretto/src/dleq.rs:50-57 | A proof is 64 bytes: the challenge little-endian, then the response |
| Layout.StateLayout | poprf-ristretto/src/poprf.rs:224-231 | A client state is 64 bytes: the blind little-endian, then the encoded tweaked key |
| Layout.ProofParsing | poprf-ristretto/src/dleq.rs:59-66 | Exactly the strings of two scalars below the order parse as proofs; everything else is `Deserialize` |
| Layout.StateParsing | poprf-ristretto/src/poprf.rs:233-241 | Exactly the strings of a scalar and a non-identity element parse as states; the identity after a scalar is `InputValidation`, everything else `Deserialize` |
| Layout.ElementMeans | poprf-ristretto/src/group.rs:107-115 | An input is hashed to the group under the first tag with nothing added |
| Layout.SeedMeans | poprf-ristretto/src/dleq.rs:273-283 | The seed is the digest of exactly the 69 bytes that frame the key and the seed tag |
| Layout.WeightMeans | poprf-ristretto/src/dleq.rs:286-309 | A weight is the scalar hash of exactly the 145 bytes with seed, index, both elements and the label at their places |
| Layout.ChallengeMeans | poprf-ristretto/src/dleq.rs:135-145 | A challenge is the scalar hash of exactly the 179 bytes with five framed elements and the label |
| Layout.InfoMeans | poprf-ristretto/src/poprf.rs:678-684 | The scalar of an info is the scalar hash of exactly the label, two bytes of length and the info |
| Layout.InfosCollide | poprf-ristretto/src/poprf.rs:678-684 | Two accepted infos with one scalar exhibit two distinct strings with one scalar hash |
| Layout.CandidateMeans | poprf-ristretto/src/key.rs:131-138 | A key candidate is the hash, under its own tag, of exactly the seed, the framed info and the counter |
| Layout.OutputMeans | poprf-ristretto/src/poprf.rs:686-706 | An output is the digest of exactly the framed input, the framed info, the framed element and the label |
| Outcomes.AcceptanceMeans | poprf-ristretto/src/dleq.rs:154-194 | A proof is accepted exactly when its challenge is the scalar hash of the string that frames the key, the sums weighted by hashed scalars, `s*A + c*B` and `s*M + c*Z` |
| Outcomes.ProofMeans | poprf-ristretto/src/dleq.rs:116-151 | The prover's challenge is the scalar hash of the string with `k*M`, `r*A`, `r*M`, and `s + c*k` is the nonce modulo the order |
| Outcomes.EvaluationMeans | poprf-ristretto/src/poprf.rs:612-663 | Which error each pair of input and info gives; otherwise the output is the digest for the element `u` with `(sk + m)*u` equal to the hashed input |
| Outcomes.BatchMeans | poprf-ristretto/src/poprf.rs:542-609 | Which error each batch gives; otherwise `sk + m` takes every evaluated element back to its blinded one, in order, and the proof is the prover's for that scalar |
| Outcomes.BlindingMeans | poprf-ristretto/src/poprf.rs:300-341 | Which error each input gives; otherwise the state is the blind with `pk + m*G`, and the element `blind` times the hashed input |
| Outcomes.FinalizationMeans | poprf-ristretto/src/poprf.rs:365-404 | Each of the four errors, and success, with exactly the inputs that give it |
| Outcomes.FinalizedOutputMeans | poprf-ristretto/src/poprf.rs:386-422 | Output `i` is the digest for the element that blind `i` takes to evaluated element `i`, and for the identity when that blind is zero |
| Outcomes.TableMeans | poprf-ristretto/src/poprf.rs:171-186 | Which error each input gives; otherwise the table holds the framed input, its length and its point |
| Outcomes.TablesMean | poprf-ristretto/src/poprf.rs:630-648 | Which error each call gives: no tables, an oversized info, a scalar that is not invertible |
| Hex.NibbleRoundTrip | poprf-ristretto/src/serde_util.rs:114-123 | Exactly the digits of either case are accepted, each standing for its place in the lower-case alphabet |
| Hex.HexEncode | poprf-ristretto/src/serde_util.rs:89-98 | Two lower-case digits for each byte, high nibble first |
| Hex.HexDecode | poprf-ristretto/src/serde_util.rs:100-112 | Succeeds exactly on `2N` digits of either case, with the bytes they stand for |
| Hex.DecodeAfterEncode | poprf-ristretto/src/serde_util.rs:89-112 | Decoding an encoding succeeds and gives the bytes back, for every length |
| Hex.EncodeAfterDecode | poprf-ristretto/src/serde_util.rs:89-112 | Encoding what was decoded gives the text in lower case |
| Hex.DigitsAre | poprf-ristretto/src/serde_util.rs:114-123 | The sixteen digits by character code, in both cases |
| Hex.PairsAre | poprf-ristretto/src/serde_util.rs:89-112 | Of each pair of digits written or read, the first counts sixteen times |
| FfiCalls.Thread.SecretKeyFromSeed | poprf-ristretto-ffi/src/lib.rs:129-161 | One step of the state machine: a fresh handle to the derived key, or NULL and an error message |
| FfiCalls.Thread.SecretKeyDecode | poprf-ristretto-ffi/src/lib.rs:173-201 | One step: a fresh handle to a parsed key, or NULL and an error message |
| FfiCalls.Thread.Encode | poprf-ristretto-ffi/src/lib.rs:213-222 | One step: the base64 text of the object, or NULL and an error message; no object changes |
| FfiCalls.Thread.OutputEquals | poprf-ristretto-ffi/src/lib.rs:758-792 | 1 exactly when the text stands for the output, 0 exactly when it stands for other 64 bytes, otherwise -1 and an error message; no object changes |
| FfiCalls.Thread.InputTableNew | poprf-ristretto-ffi/src/lib.rs:606-627 | One step: a fresh handle to a table object with the input's contents, or NULL and an error message |
| FfiCalls.Thread.BlindedElementDecode | poprf-ristretto-ffi/src/lib.rs:311-339 | One step: a fresh handle to a parsed element, or NULL and an error message |
| FfiCalls.Thread.PublicKeyFromSecret | poprf-ristretto-ffi/src/lib.rs:251-260 | One step: a fresh handle to the key's public key, or NULL and an error message |
| FfiCalls.Thread.EvaluateInput | poprf-ristretto-ffi/src/lib.rs:549-585 | One step: a fresh handle to the output of `evaluate`, or NULL and an error message |
| FfiCalls.Thread.AllocateInto | poprf-ristretto-ffi/src/lib.rs:717-720 | Fills the slots in order with distinct unused handles to the objects |
| FfiCalls.Thread.BlindEvaluateBatch | poprf-ristretto-ffi/src/lib.rs:468-527 | Returns 0, clears the error and fills all slots, the proof using the generator's first nonzero draw, or returns -1, sets the error and leaves slots, live objects and generator alone |
| FfiCalls.Thread.EvaluateTables | poprf-ristretto-ffi/src/lib.rs:668-723 | Evaluates the shared table objects: returns 0 and fills all slots, or returns -1, sets the error and leaves the slots alone; every live table keeps its contents |
| FfiCalls.Thread.Destroy | poprf-ristretto-ffi/src/lib.rs:636-642 | Frees one object, ignores NULL, and does not touch the error slot |
| FfiCalls.Thread.LastErrorMessage | poprf-ristretto-ffi/src/lib.rs:47-55 | Returns a copy of the error slot and changes nothing |
| FfiRuns.ErrorSlotTracksLastFailure | poprf-ristretto-ffi/src/lib.rs:29-40 | Along every run of calls the slot is set exactly when the most recent fallible call failed |
| FfiRuns.ObjectsAreStable | poprf-ristretto-ffi/src/lib.rs:515-524 | Along every run a live object does not change and its handle is not given out again until it is destroyed |
| FfiRuns.BatchAllOrNothing | poprf-ristretto-ffi/src/lib.rs:436-450 | A failed batch leaves the live objects alone; a successful one gives unused distinct handles in order to the evaluated elements and the proof, and keeps everything else |
| FfiRuns.TablesAgreeInRun | poprf-ristretto-ffi/src/lib.rs:644-651 | Along every run, slot `k` of a successful table evaluation holds `evaluate` of the input its table was built from, however tables are shared, repeated or reordered |
| FfiOutcomes.PointerChecks | poprf-ristretto-ffi/src/lib.rs:92-100 | Every check on pointers, lengths and empty batches, in order, with its message; a failure leaves all objects alone |
| FfiOutcomes.NullAtIndex | poprf-ristretto-ffi/src/lib.rs:496-503 | The first NULL among the handles of a batch is refused with its index |
| FfiOutcomes.DecimalSpells | poprf-ristretto-ffi/src/lib.rs:499-501 | The index in the message is the decimal numeral of the number |
| FfiOutcomes.TextsAreDistinct | poprf-ristretto/src/error.rs:41-53 | The text of a failure tells which error it was |
| FfiOutcomes.SeedOutcome | poprf-ristretto-ffi/src/lib.rs:129-161 | One handle to the key derived from the seed and the info, or the error of derivation |
| FfiOutcomes.SecretKeyOutcome | poprf-ristretto-ffi/src/lib.rs:173-201 | One handle to the one nonzero scalar whose 32 bytes were sent; zero and everything else are refused, each with its message |
| FfiOutcomes.PublicKeyOutcome | poprf-ristretto-ffi/src/lib.rs:251-260 | One handle to the key's multiple of the generator |
| FfiOutcomes.BlindedOutcome | poprf-ristretto-ffi/src/lib.rs:311-339 | One handle to the one element other than the identity whose encoding was sent; the rest is refused, each with its message |
| FfiOutcomes.EncodedAs | poprf-ristretto-ffi/src/lib.rs:213-222 | The bytes that each kind of object is encoded as |
| FfiOutcomes.KeySurvives | poprf-ristretto-ffi/src/lib.rs:173-222 | Encoding a secret key and decoding the text gives an equal key at a handle of its own |
| FfiOutcomes.EvaluateOutcome | poprf-ristretto-ffi/src/lib.rs:549-585 | One handle to the output of `evaluate` for this key, input and info, or its error |
| FfiOutcomes.TableOutcome | poprf-ristretto-ffi/src/lib.rs:606-627 | One handle to the table of the input, or the error of building it |
| FfiOutcomes.EvaluationsAgreeInRun | poprf-ristretto-ffi/src/lib.rs:644-651 | At any two points of a run, evaluating an input and evaluating its table under the same key and info give the same output |
| FfiOutcomes.BatchOutcome | poprf-ristretto-ffi/src/lib.rs:468-527 | Handles to the evaluated elements in order and to the proof, or the error of the server |
| FfiOutcomes.BatchServes | poprf-ristretto-ffi/src/lib.rs:468-527 | A batch call on successful requests with nonzero blinds succeeds, and a client that finalizes the objects behind the new handles gets the server's own outputs |
| FfiOutcomes.TablesOutcome | poprf-ristretto-ffi/src/lib.rs:668-723 | Handles to the outputs in order, or the error of the server |
| FfiOutcomes.QueriesKeepTheSlot | poprf-ristretto-ffi/src/lib.rs:636-642 | A destructor removes one object and keeps the rest; it and the error query leave the error slot alone |
| Instance.ToyIsLawful | poprf-ristretto/src/group.rs:28-95 | The assumptions about the curve library and the hashes are consistent: the integers modulo 5 meet them |
| Instance.MismatchedFinalizeIsAccepted | poprf-ristretto/src/lib.rs:77-80 | A concrete exchange whose finalization under another info is accepted with an output that is not the server's |
| Instance.ZeroBlindIsAccepted | poprf-ristretto/src/poprf.rs:300-308 | A concrete zero blind that blinding accepts and the server's parser refuses |

## Left out

- Curve25519 and Ristretto arithmetic, Pippenger's method, SHA-512 rounds and `expand_message_xmd`: library code, stated as laws of a suite.
- The windowed tables of `precomputed-tables`: the base of a table is its point, which multiplies like the table.
- Constant-time behaviour, wiping on drop and `Debug` output: not functional properties.
- Probabilistic claims: the exact algebraic and collision forms stand for them.
- The quality of randomness: a generator is an arbitrary stream; sampling terminates because a nonzero draw is assumed to come.
- The `debug_assert` on indices above 65535: the model is the release build, which truncates.
- The single-token calls that draw their own nonce or parse one: they differ from the batch calls by a list of one element.
- Serde visitors, base64, the wasm crate, benches and examples: glue over libraries; base64 decoding is a parameter of the C interface.
- Freeing C strings: a string that a call returns is a value.
- Verifiability.ServerInfoMismatch: leaves the collision of two named transcripts open where the documentation promises `Verify`, because the hash is an arbitrary function here.
- Verifiability.WrongOutputNeedsAccident: says which hash values a wrong output needs, not how unlikely they are.
- Ffi.Step: the count `n` is the length of the arrays.
- Validity of raw pointers, double free, aliasing of input and output arrays, and calls from several threads: obligations of the caller.
- The clauses of the C interface for a batch result of the wrong length: the server returns one element for each input, so they cannot happen.
