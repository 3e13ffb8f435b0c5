# KeyMesh: a verified model

KeyMesh is a wallet whose signing key is shared among devices and guarded by
people. This project models the parts whose correctness is an argument rather
than a lookup, and proves them with Dafny 4.11:

- **Threshold key arithmetic.** The distributed key generation of the
  prototype crate, Lagrange interpolation at zero over a prime scalar field,
  and threshold signing with its gates, its low-s rule and its recovered-key
  check.
- **The governed key lifecycle.** Rotation requests (quorum, timelock,
  resharing), the key object (creation, refresh, rotation, retirement), the
  resharing helpers, and whole runs of one key with any number of requests.
- **Canonical encodings.** The Rust encoder/decoder pair, `KEYMESH_TX_V1` in
  Rust and TypeScript, recovery and rotation request bytes, session-id
  preimages, envelope sign bytes and the hex codec.
- **Guardian recovery.** The Rust reference machine, its runs, and the
  TypeScript records that have to stay in step with it.
- **The simulated transport**, its injected faults and its log checks.

## Layout

| file | content |
|---|---|
| `Residues.dfy`, `PrimeField.dfy`, `Polynomials.dfy` | quotients and residues; arithmetic modulo a prime; division, root counting and Newton interpolation of polynomials |
| `Shamir.dfy`, `Keygen.dfy`, `Signature.dfy` | interpolation, key generation, signing |
| `Bytes.dfy`, `Utf8.dfy`, `Hex.dfy`, `TsBuffer.dfy` | big-endian numbers, byte orders, well-formed strings, hex, offset writes |
| `Serialization.dfy`, `Transaction.dfy`, `TsTransaction.dfy`, `Session.dfy`, `Envelope.dfy` | encodings |
| `Governance.dfy`, `Resharing.dfy`, `Lifecycle.dfy`, `LifecycleRuns.dfy` | the governed key lifecycle |
| `ResharingExamples.dfy`, `DirectRotation.dfy` | concrete rotations and runs |
| `Recovery.dfy`, `TsRecovery.dfy` | guardian recovery in both languages |
| `Transport.dfy` | the simulated transport |
| `Outcome.dfy`, `Names.dfy`, `TssErrors.dfy` | shared results, names and errors |

`dafny verify dfyconfig.toml` checks everything.

## How the model is built

Objects that the source updates in place are classes; each method's contract
equates the new state and the result with a step function on values, and the
lemmas are about those step functions, single steps first and then runs given
as arbitrary operation lists with arbitrary clock readings. Loops over local
vectors and buffers are methods with loops, proved against functions.

Parameters stand for what the repository calls but does not contain:

- The field order `q` is any prime above 255. Share indices are bytes, so
  distinct indices are distinct scalars.
- Curve operations and ECDSA are functions of an `Ecdsa` value. `Faithful`
  gathers what is assumed of them where correctness is claimed: signing is a
  function of key and digest (section 3.2 of RFC 6979), yields halves between 1
  and the order and a low s, its key is recovered, and different scalars have
  different keys.
- Keccak is an arbitrary function; the claims are about its preimages.
- Resharing and auxiliary-data runs are oracles applied to the entry points
  the code builds. They may fail or return arbitrary shares for every party,
  so the group key is preserved only because the code checks it.
- Clock readings, drawn scalars and domain tags are arguments.

Strings of the Rust crates are their UTF-8 bytes; where a claim turns on what a
string can hold, they are required to be well formed (`Utf8.dfy`, section 4 of
RFC 3629). Error values keep their kind and numbers, not their message text.

## What the proofs say about the code

- `lagrange_interpolate_at_zero` panics exactly on a repeated index. Otherwise
  it returns the constant term of the one polynomial of degree below k through
  the shares, in whatever order they come.
- The high-s branch of both signers decodes the group order as a scalar and
  unwraps the failure, so it would panic (`OrderIsNoScalar`).
  `SignsExactlyWhenReconstructed` shows it is not reached with a signer that
  returns low s; `NegationIsLow` states the replacement the branch is meant to
  make.
- `mark_resharing` opens at quorum although its comment speaks of an elapsed
  timelock; the timelock holds on `mark_resharing_with_time`
  (`ResharingGates`). Governed runs stay safe even when anyone may call either.
- `apply_rotation` with a threshold other than its request's returns without
  releasing the key (`ApplyReleasesExactlyOnMatch`), after which every other
  operation is refused (`RotatingBlocks`).
- `apply_rotation` takes any request, in any state, although its comment
  speaks of governance approval: a request nobody approved can rotate the key
  (`UnapprovedRequestRotates`), even twice (`RequestAppliedTwice`), and one
  cancelled after rotation began still does (`CancelledRequestRotates`). What
  holds in every run is that an approved, released request began each rotation
  (`IncrementBacked`); what is installed is what was approved exactly when the
  terms agree (`InstalledAsApproved`), as they do whenever the call names the
  request its rotation began with (`OwnTerms`). That request is cancelled by
  then exactly if a cancellation succeeded since (`CancelledWhenRotated`), and a
  request is completed only by the governed entry point or its own closing mark
  (`CompletedExactly`). Runs through `rotate_with_request` rotate the request
  that authorised them (`GovernedIsTied`), which is never cancelled
  (`GovernedNeverCancelled`).
- Distinct participant names can denote one party: "A" and "P0" are both
  position 0 (`AliasesCollide`). `RotationResult` gives the exact condition.
  Fresh ids count positions in the new list, so a dropped party can come back
  under a new name (`DroppedPartyReturns`).
- After a rotation only the least party's share is compared with the group key,
  so success vouches for a share exactly when its party is the least
  (`ShareVouchedExactly`), and for all shares exactly when all names yield one
  party (`AllVouchedExactly`); `OtherSharesUnchecked` is a witness. A refresh
  checks them all.
- Signed envelope bytes separate their two strings by a zero byte, which UTF-8
  allows inside them; `AmbiguousExactlyWhen` says when another envelope has the
  same bytes, `ValidatedAmbiguousExactly` when another one of the same context.
- The TypeScript session id takes numbers modulo 2^256 and hex digits in either
  case; `TsSamePreimageExactly` says which bindings it tells apart.
- `hexToBytes` refuses nothing but odd length (`StoredPairIs`).
- `check_round_order` checks the range of rounds only; a swap passes all three
  log checks (`FaultsNoticed`).
- The TypeScript recovery comment describes a step through `approved`; the code
  goes straight to `timelock_active`, and `approved` is unreachable.
- TypeScript keeps the milliseconds that Rust drops: in the second the timelock
  ends Rust can finalize before TypeScript completes, and then a TypeScript
  cancellation sets them apart for good (`PartedRun`). `RecoveriesStayInStep`
  gives the exact condition; TypeScript never completes what Rust has not.

## Model

| member | source | states |
|---|---|---|
| PrimeField.Inverse | crates/keymesh-tss-proto/src/shamir.rs:27-27 | every nonzero scalar has an inverse, so inversion of a nonzero denominator cannot fail |
| PrimeField.NoZeroDivisors | crates/keymesh-tss-proto/src/shamir.rs:18-27 | a product is zero modulo a prime exactly when a factor is |
| Polynomials.RootCount | crates/keymesh-tss-proto/src/dkg.rs:3-8 | a polynomial with no more coefficients than it has distinct roots is zero |
| Polynomials.ExactlyOnePolynomial | crates/keymesh-tss-proto/src/dkg.rs:3-8 | any values at k distinct points are taken by exactly one polynomial of degree below k |
| Shamir.LagrangeInterpolateAtZero | crates/keymesh-tss-proto/src/shamir.rs:10-32 | the outer loop accumulates the interpolated secret, and fails exactly when an index is repeated |
| Shamir.BasisProducts | crates/keymesh-tss-proto/src/shamir.rs:16-25 | the inner loop multiplies the basis numerator and denominator of one share |
| Shamir.DenominatorInvertible | crates/keymesh-tss-proto/src/shamir.rs:16-27 | a basis denominator vanishes exactly when another share has the same index |
| Shamir.InterpolationRecoversConstant | crates/keymesh-tss-proto/src/shamir.rs:8-32 | values of any polynomial with at most as many coefficients as points interpolate to its constant term |
| Shamir.InterpolationMeaning | crates/keymesh-tss-proto/src/shamir.rs:8-32 | for arbitrary shares, the result is the constant term of the one polynomial of degree below k through them |
| Shamir.InterpolationOrderFree | crates/keymesh-tss-proto/src/shamir.rs:13-30 | permuting the shares does not change the result |
| Shamir.FewerSharesFixNothing | crates/keymesh-tss-proto/src/dkg.rs:3-8 | k-1 shares and any candidate secret are met by exactly one polynomial of degree below k |
| Shamir.TamperedShareChangesSecret | crates/keymesh-tss-proto/src/shamir.rs:16-29 | replacing one share value keeps the secret exactly when the value is the same scalar |
| Keygen.DealShares | crates/keymesh-tss-proto/src/dkg.rs:137-175 | for any number of participants, the secret is the sum of the constant terms and share j the summed line at j, a zero draw counting as one |
| Keygen.DealtFromNonzero | crates/keymesh-tss-proto/src/dkg.rs:152-175 | for nonzero draws, what dealing returns is the sum of the constant terms as secret and that sum plus j times the sum of the slopes as share j |
| Keygen.ThreeDealt | crates/keymesh-tss-proto/src/dkg.rs:152-175 | the three shares of the prototype, written out |
| Keygen.ZeroDrawsAsOne | crates/keymesh-tss-proto/src/dkg.rs:140-150 | a zero draw deals exactly what a draw of one deals |
| Keygen.EveryConstantCounts | crates/keymesh-tss-proto/src/dkg.rs:152-156 | with all else fixed, two nonzero constant terms of any participant give different secrets |
| Keygen.EverySlopeCounts | crates/keymesh-tss-proto/src/dkg.rs:164-171 | with all else fixed, two nonzero slopes of any participant give every share another value and leave the secret alone |
| Keygen.DistributedKeygen | crates/keymesh-tss-proto/src/dkg.rs:127-193 | panics exactly outside 2-of-3 or on a zero secret; shares lie on the secret line, the group key is that of the secret, the closing debug assertion holds |
| Keygen.SubsetRecovers | crates/keymesh-tss-proto/src/dkg.rs:164-184 | any two or more dealt shares in any order interpolate to the summed constant terms |
| Keygen.AuthorisedSubsetsSignAlike | crates/keymesh-tss-proto/src/signature.rs:65-98 | every authorised subset in every order signs, with the same signature |
| Keygen.OneShareFixesNothing | crates/keymesh-tss-proto/src/dkg.rs:3-8 | one share is consistent with every secret, through exactly one line |
| Keygen.SingleShareMisses | crates/keymesh-tss-proto/src/shamir.rs:61-63 | one dealt share alone interpolates to the secret exactly when the slopes sum to zero |
| Signature.HalfOrderValue | crates/keymesh-tss-proto/src/signature.rs:38-42 | the byte constant is (N-1)/2 for N of SEC 2 v2 section 2.4.1 |
| Signature.LowIsNumeric | crates/keymesh-tss/src/signing.rs:21-28 | array comparison with the constant decides whether s exceeds (N-1)/2 |
| Signature.ScanGreater | crates/keymesh-tss-proto/src/signature.rs:108-120 | the scan up to the first difference decides numeric order |
| Signature.IsHigh | crates/keymesh-tss-proto/src/signature.rs:106-120 | the early-exit byte scan decides the same thing |
| Signature.NegationIsLow | crates/keymesh-tss-proto/src/signature.rs:105-130 | N - s of a high s below N lies in [1, (N-1)/2], and negating again gives s |
| Bytes.LexIsNumeric | crates/keymesh-tss/src/signing.rs:164-171 | for equal lengths, lexicographic order of arrays is big-endian numeric order |
| Signature.OrderIsNoScalar | crates/keymesh-tss-proto/src/signature.rs:126-127 | the order decodes to no scalar, so the code behind that unwrap is never reached |
| Signature.ThresholdSign | crates/keymesh-tss-proto/src/signature.rs:58-156 | the gates, the duplicate scan, reconstruction, the panics on a high s and on a half no signature decodes from, and the recovered-key check, in order |
| Signature.SignsExactlyWhenReconstructed | crates/keymesh-tss-proto/src/signature.rs:65-150 | signing succeeds exactly when enough distinct shares under the right session reconstruct the group scalar; it never panics; the signature holds the halves the library returned, 27 plus its recovery id, the digest and the session id of the binding, is low-s and recovers the group key |
| Signature.EarlyRefusals | crates/keymesh-tss-proto/src/signature.rs:65-86 | too few shares, a repeated index, a foreign session: each is reported exactly when it is the first gate that does not hold |
| Signature.LateRefusals | crates/keymesh-tss-proto/src/signature.rs:87-156 | past the gates, each outcome is reported exactly in its case: zero scalar, failed signing, panic, failed recovery, another key, or the signature |
| Signature.TamperedShareRefused | crates/keymesh-tss-proto/src/signature.rs:131-150 | a signing set with one altered share value is refused |
| Signature.ValidateSubset | crates/keymesh-tss/src/signing.rs:65-90 | succeeds exactly on enough in-range distinct positions under the right session; the first offending position decides the error |
| Serialization.Encoder.WriteBytes | crates/keymesh-core/src/serialization/mod.rs:48-52 | appends the length as a wrapping u32 and the bytes |
| Serialization.Decoder.ReadBytes | crates/keymesh-core/src/serialization/mod.rs:118-128 | reads a prefixed string within bounds, or fails having consumed nothing, or only the length when that is too large |
| Serialization.Decoder.ReadU64 | crates/keymesh-core/src/serialization/mod.rs:94-104 | reads eight bytes big-endian, or fails without moving |
| Serialization.Decoder.ReadU8 | crates/keymesh-core/src/serialization/mod.rs:83-92 | reads one byte, or fails without moving |
| Serialization.Decoder.ReadU32 | crates/keymesh-core/src/serialization/mod.rs:106-116 | reads four bytes big-endian, or fails without moving |
| Serialization.Decoder.Finish | crates/keymesh-core/src/serialization/mod.rs:73-81 | succeeds exactly when nothing is left, else reports how much |
| Serialization.Encoder.WriteU8 | crates/keymesh-core/src/serialization/mod.rs:35-37 | appends one byte |
| Serialization.Encoder.WriteU64 | crates/keymesh-core/src/serialization/mod.rs:39-41 | appends eight bytes big-endian |
| Serialization.Encoder.WriteRaw | crates/keymesh-core/src/serialization/mod.rs:44-46 | appends bytes without a prefix |
| Serialization.ReadFields | crates/keymesh-core/src/serialization/mod.rs:57-129 | reading any schema and finishing computes the schema decoding |
| Serialization.WriteFields | crates/keymesh-core/src/serialization/mod.rs:22-53 | writing any field list produces its encoding |
| Serialization.FieldLayout | crates/keymesh-core/src/serialization/mod.rs:35-52 | each field byte for byte: most significant byte first, strings behind a length that wraps at 2^32 |
| Serialization.DecodeExactlyInverts | crates/keymesh-core/src/serialization/mod.rs:22-129 | decoding by a schema yields given fields exactly on their encoding: round trip and canonicity in one |
| Serialization.BlobRoundTripExactlyWhenShort | crates/keymesh-core/src/serialization/mod.rs:48-52 | a byte string survives the round trip exactly when shorter than 2^32 |
| Transaction.EncodeCanonical | crates/keymesh-core/src/transaction/mod.rs:105-132 | the appending encoder writes the wire format, or the validation error |
| Transaction.Be256U64 | crates/keymesh-core/src/transaction/mod.rs:112-116 | zero padding gives the 32-byte encoding of a u64 |
| Transaction.Be256U128 | crates/keymesh-core/src/transaction/mod.rs:105-109 | zero padding gives the 32-byte encoding of a u128 |
| Transaction.CanonicalLength | packages/protocol/src/canonical.ts:18-27 | the encoding has 204 + len(data) bytes |
| Transaction.CanonicalLayout | crates/keymesh-core/src/transaction/mod.rs:118-132 | the offset of every field in the wire format |
| Transaction.ValidationExactly | crates/keymesh-core/src/transaction/mod.rs:73-101 | validation reports a zero chain id, too long data or expiry, each exactly in its case |
| Transaction.ParseExactlyInverts | crates/keymesh-core/src/transaction/mod.rs:118-132 | the parser accepts exactly the canonical bytes of acceptable transactions |
| Transaction.CanonicalInjective | crates/keymesh-core/src/transaction/mod.rs:118-132 | equal canonical bytes, equal in all seven fields |
| Transaction.CanonicalPrefixFree | crates/keymesh-core/src/transaction/mod.rs:118-132 | no encoding is a proper prefix of another |
| TsBuffer.WriteUint256BE | packages/protocol/src/canonical.ts:102-106 | the shift loop writes the 32 big-endian bytes at the offset and nothing else |
| TsBuffer.WriteUint32BE | packages/protocol/src/canonical.ts:108-113 | the four shifts write the length big-endian |
| TsBuffer.Set | packages/protocol/src/canonical.ts:123-137 | copies bytes to the offset and nothing else |
| TsTransaction.ValidatorsAgree | packages/protocol/src/canonical.ts:82-100 | TypeScript accepts a transaction exactly when it is well spelled and Rust accepts what it denotes, with or without a clock |
| TsTransaction.FirstInvalidFieldIs | packages/protocol/src/canonical.ts:82-100 | the field reported is that of the first rule broken, in the order of the checks |
| TsTransaction.MeaningReadsBack | packages/protocol/src/canonical.ts:116-139 | the Rust transaction behind a TypeScript one has its numbers and spells back to its strings, digits in lower case |
| TsTransaction.SpellingDenotes | packages/protocol/src/canonical.ts:58-69 | every Rust transaction has a TypeScript spelling that denotes it |
| TsTransaction.EncodeCanonicalTransaction | packages/protocol/src/canonical.ts:116-142 | reports the first invalid field, or fills a buffer with exactly the bytes the Rust encoder appends |
| TsTransaction.Fill | packages/protocol/src/canonical.ts:120-139 | nine writes, each starting where the one before it ended, from 0 to the end of the buffer, leave the fields in wire order |
| TsBuffer.FilledIsJoined | packages/protocol/src/canonical.ts:120-139 | such writes leave their bytes in order, whatever the buffer held before |
| TsBuffer.WrittenOnce | packages/protocol/src/canonical.ts:120-139 | they partition the buffer: every index lies in exactly one of them |
| Hex.HexToBytes | packages/types/src/bytes.ts:11-21 | fails exactly on odd length, else stores what the parser makes of each two characters: the value of the pair when they are digits |
| Hex.StoredPairIs | packages/types/src/bytes.ts:18-18 | the byte stored for any two characters: stray characters are not refused, a lone digit counts alone, a minus sign wraps, and no digit is 0 |
| Hex.DigitTable | packages/types/src/bytes.ts:5-18 | the value of each of the 22 digits |
| Hex.SpacesAre | packages/types/src/bytes.ts:18-18 | the characters the parser skips, one by one |
| Hex.EncodeDecode | packages/types/src/bytes.ts:5-21 | decoding undoes encoding |
| Hex.DecodeEncode | packages/types/src/bytes.ts:5-21 | encoding undoes decoding up to letter case |
| Session.DeriveSessionId | crates/keymesh-tss/src/session.rs:26-46 | the Rust appends hash the session preimage |
| Session.WriteU256BE | crates/keymesh-tss/src/session.rs:26-30 | appends the 32-byte encoding of a u64 |
| Session.PreimageInjective | crates/keymesh-tss/src/session.rs:32-40 | no two bindings share a preimage |
| Session.PreimageLayout | crates/keymesh-tss/src/session.rs:32-40 | the offset of every field in the preimage |
| Session.TsDeriveSessionId | packages/protocol/src/signing.ts:92-133 | reports the first invalid field, or hashes the preimage of the Rust binding it denotes |
| Session.FirstInvalidExactly | packages/protocol/src/signing.ts:93-104 | the field reported is the first invalid one |
| Session.ValidVersionExactly | packages/protocol/src/signing.ts:60-63 | a protocol version passes exactly if it is two non-empty parts joined by a slash, within 64 characters |
| Session.VersionChars | packages/protocol/src/signing.ts:62-62 | the characters of those parts |
| Session.MeaningReadsBack | packages/protocol/src/signing.ts:106-131 | the Rust binding behind a TypeScript one has its numbers and spells back to its strings, digits in lower case |
| Session.TsPreimage | packages/protocol/src/signing.ts:106-131 | the scratch buffers and pushes collect the preimage of the Rust binding |
| Session.TsSamePreimageExactly | packages/protocol/src/signing.ts:79-131 | two valid bindings share a preimage exactly when their numbers agree modulo 2^256, their hex fields up to letter case, and their versions |
| Session.SigningSession.TransitionTo | crates/keymesh-tss/src/session.rs:76-85 | leaves Started for a terminal status once, else reports why not |
| Session.TransitionExactly | crates/keymesh-tss/src/session.rs:76-85 | which transitions are open, and what is reported for the others |
| Session.FirstTerminalWins | packages/protocol/src/signing.ts:196-211 | over any attempts the first terminal status stays: an aborted session is never completed |
| Envelope.ToSignBytes | crates/keymesh-tss/src/envelope.rs:47-61 | the appends produce the signed bytes |
| Envelope.SignBytesLayout | crates/keymesh-tss/src/envelope.rs:47-61 | the place of every field in the signed bytes |
| Envelope.SignBytesInjective | crates/keymesh-tss/src/envelope.rs:47-61 | signed bytes determine an envelope whose version and type hold no zero byte |
| Utf8.WellFormedExactly | crates/keymesh-tss/src/envelope.rs:8-14 | what the two Rust strings can hold: the byte table of RFC 3629 admits exactly the concatenated encodings of Unicode scalar values |
| Envelope.ReadingsAre | crates/keymesh-tss/src/envelope.rs:47-61 | the envelopes behind given signed bytes are exactly the readings at two places, a version end and a type end, with well-formed UTF-8 before each |
| Envelope.AmbiguousExactlyWhen | crates/keymesh-tss/src/envelope.rs:47-61 | an envelope shares its bytes with another exactly when they can be read at a second pair of places |
| Envelope.ZeroInTypeIsAmbiguous | crates/keymesh-tss/src/envelope.rs:56-59 | every envelope with a zero byte in its message type shares its bytes with another, both strings being UTF-8 |
| Envelope.ZeroInVersionExactly | crates/keymesh-tss/src/envelope.rs:49-57 | a zero byte in the protocol version gives a second envelope cut there exactly when a later zero byte, with a digest behind it, closes a well-formed message type |
| Envelope.ZeroInVersionUnambiguous | crates/keymesh-tss/src/envelope.rs:49-57 | a concrete envelope with a zero byte in its protocol version and bytes of its own |
| Envelope.OneContext | crates/keymesh-tss/src/envelope.rs:86-117 | an envelope validates against at most one context, in rounds 1 to 10 only |
| Envelope.ValidatedExactly | crates/keymesh-tss/src/envelope.rs:86-117 | validation reports the first mismatch, and accepts exactly the context an envelope names in rounds 1 to 10 |
| Envelope.ValidatedInjective | crates/keymesh-tss/src/envelope.rs:47-117 | within one context only the message type has to be zero-free |
| Envelope.ValidatedAmbiguousExactly | crates/keymesh-tss/src/envelope.rs:47-117 | a valid envelope shares its bytes with another of its context exactly when its type can also be read to end elsewhere with the context digest behind it |
| Names.SetSizeDetectsRepetition | crates/keymesh-tss/src/governance.rs:88-93 | comparing set size with length detects a repeated participant |
| Governance.TssRotationRequest.InitiateRequest | crates/keymesh-tss/src/governance.rs:63-130 | the guards in order, or a fresh pending request |
| Governance.TssRotationRequest.ApproveBy | crates/keymesh-tss/src/governance.rs:151-171 | one step of the approval transition |
| Governance.TssRotationRequest.MarkAsResharingAt | crates/keymesh-tss/src/governance.rs:200-210 | one step of the time-checked marking |
| Governance.TssRotationRequest.MarkAsResharing | crates/keymesh-tss/src/governance.rs:184-198 | one step of the clock-free marking |
| Governance.TssRotationRequest.CancelRequest | crates/keymesh-tss/src/governance.rs:173-182 | one step of cancellation |
| Governance.TssRotationRequest.MarkAsCompleted | crates/keymesh-tss/src/governance.rs:212-221 | one step of completion |
| Governance.TssRotationRequest.MarkAsFailed | crates/keymesh-tss/src/governance.rs:223-232 | one step of failure |
| Governance.TssRotationRequest.CanonicalBytes | crates/keymesh-tss/src/governance.rs:239-257 | the loop writes the canonical bytes of the terms |
| Governance.RotationLayout | crates/keymesh-tss/src/governance.rs:239-257 | the offset of every field in the canonical bytes |
| Governance.NamesLayout | crates/keymesh-tss/src/governance.rs:246-250 | the participants one after the other, each behind its length |
| Governance.InitiationEstablishes | crates/keymesh-tss/src/governance.rs:77-129 | exactly when a request can be opened, and that it then satisfies the invariant |
| Governance.InitiationRefusals | crates/keymesh-tss/src/governance.rs:77-112 | which error a refused request is reported with, exactly |
| Governance.RequestStepKeeps | crates/keymesh-tss/src/governance.rs:151-232 | every operation keeps distinct approvals within quorum, the terms, the once-set release time and frozen terminal states; errors change nothing |
| Governance.RequestStepSucceedsExactly | crates/keymesh-tss/src/governance.rs:151-232 | each operation succeeds exactly in its statuses; an approval exactly while pending and for a new guardian |
| Governance.RequestStepYields | crates/keymesh-tss/src/governance.rs:151-232 | the whole next state of each success: the guardian appended, quorum and release time once there are enough, or the status the operation stands for |
| Governance.DistinctApprovalsReachQuorum | crates/keymesh-tss/src/governance.rs:151-171 | any quorum-many pairwise distinct guardians bring a fresh request to its quorum, released the timelock after the last of them; fewer leave it pending |
| Governance.ResharingGates | crates/keymesh-tss/src/governance.rs:140-210 | a request reads as executable, and the time-checked marking opens, exactly at a reached quorum from the release time on; the clock-free marking opens at quorum |
| Governance.RotationBytesIdentify | crates/keymesh-tss/src/governance.rs:239-257 | equal bytes exactly when all terms but requester and reference are equal |
| Resharing.RotationEntryPoints | crates/keymesh-tss/src/lifecycle.rs:608-707 | the loops resolve names, choose parties and list entry points as specified |
| Resharing.NameTableMeaning | crates/keymesh-tss/src/lifecycle.rs:612-626 | a name resolves to position i exactly when it is "P" and i in decimal, or one of the first five letters |
| Resharing.DecimalReads | crates/keymesh-tss/src/lifecycle.rs:614-614 | the decimal of a position reads as that number and has no leading zero |
| Resharing.FirstNames | crates/keymesh-tss/src/lifecycle.rs:612-626 | the names of some positions, spelled out |
| Resharing.EntryRoles | crates/keymesh-tss/src/lifecycle.rs:654-707 | a party enters as old holder exactly if it held a share, as new holder exactly if it will hold one, the latter told the group key, the old threshold and all old parties |
| Resharing.OldHoldersFirst | crates/keymesh-tss/src/lifecycle.rs:674-707 | the old participants enter first, in their order and with their shares; nobody after them brings a share |
| Resharing.EntryPartiesAre | crates/keymesh-tss/src/lifecycle.rs:660-713 | the parties are the old and the new holders, no more and no fewer |
| Resharing.EntryPartiesOnce | crates/keymesh-tss/src/lifecycle.rs:674-713 | each enters once exactly when no two fresh ids collide |
| Resharing.FewFreshIdsDistinct | crates/keymesh-tss/src/lifecycle.rs:641-643 | fresh ids cannot collide among at most 256 names |
| Resharing.DoRotationViaResharing | crates/keymesh-tss/src/lifecycle.rs:562-785 | the helper checks sizes, runs, collects shares, checks the least party's key and assembles the material |
| Resharing.RotationSucceedsExactly | crates/keymesh-tss/src/lifecycle.rs:594-766 | a rotation succeeds exactly when the sizes fit, both runs succeed, every new party gets a share and the least one's is under the group key; which error is reported otherwise |
| Resharing.RotationHands | crates/keymesh-tss/src/lifecycle.rs:768-777 | each new party gets the share and the auxiliary data the runs returned for it |
| Resharing.RotationResult | crates/keymesh-tss/src/lifecycle.rs:736-784 | success keeps the group key, has the requested size and threshold and positions from zero; parties are distinct exactly when no two names yield one party; the share of the least party is under the group key |
| Resharing.KeepsShareExactly | crates/keymesh-tss/src/lifecycle.rs:631-651 | an old party holds a share afterwards exactly when a name resolves to its position or an unresolved name is given its number |
| Resharing.SameHoldersExactly | crates/keymesh-tss/src/lifecycle.rs:631-651 | two name lists yield the same parties exactly when they agree in length and, place by place, in the party they denote |
| Resharing.ShareVouchedExactly | crates/keymesh-tss/src/lifecycle.rs:736-747 | over all outcomes of the protocol runs, success puts a share under the group key exactly when its party is the least of the new ones |
| Resharing.AllVouchedExactly | crates/keymesh-tss/src/lifecycle.rs:736-747 | success puts every share under the group key exactly when all names yield one party |
| ResharingExamples.OtherSharesUnchecked | crates/keymesh-tss/src/lifecycle.rs:736-747 | a successful rotation in which another share is under another key |
| ResharingExamples.DroppedPartyReturns | crates/keymesh-tss/src/lifecycle.rs:639-650 | two rotations, names apart in both, after which a party the second one dropped holds a share under the new name |
| Resharing.AliasesCollide | crates/keymesh-tss/src/lifecycle.rs:612-626 | two distinct names denote position 0 |
| Resharing.DoRefreshViaResharing | crates/keymesh-tss/src/lifecycle.rs:447-560 | the helper reshares to the same parties and demands the old key of every share |
| Resharing.RefreshResult | crates/keymesh-tss/src/lifecycle.rs:494-559 | success keeps parties, positions, threshold and group key, and gives each party the share and auxiliary data the runs returned for it |
| Resharing.RefreshSucceedsExactly | crates/keymesh-tss/src/lifecycle.rs:489-519 | a refresh succeeds exactly when both runs do and every party gets a share under the group key |
| Resharing.RefreshRoles | crates/keymesh-tss/src/lifecycle.rs:447-484 | each participant enters with its own share as old holder, and as new holder told the group key, the old threshold and the whole set |
| Resharing.AuxRoles | crates/keymesh-tss/src/lifecycle.rs:521-535 | each party generates its auxiliary data for the whole set |
| Lifecycle.KeyLifecycle.RunDkg | crates/keymesh-tss/src/lifecycle.rs:97-116 | one step of creation |
| Lifecycle.KeyLifecycle.RefreshShares | crates/keymesh-tss/src/lifecycle.rs:124-185 | one step of refresh, every failure restoring the active state |
| Lifecycle.KeyLifecycle.Begin | crates/keymesh-tss/src/lifecycle.rs:189-256 | one step of beginning a rotation |
| Lifecycle.KeyLifecycle.Apply | crates/keymesh-tss/src/lifecycle.rs:261-348 | one step of applying a rotation |
| Lifecycle.KeyLifecycle.Commit | crates/keymesh-tss/src/lifecycle.rs:300-347 | the checks on reshared material and the switch to it |
| Lifecycle.KeyLifecycle.Rotate | crates/keymesh-tss/src/lifecycle.rs:351-375 | the governed rotation on both objects |
| Lifecycle.KeyLifecycle.SigningAllowed | crates/keymesh-tss/src/lifecycle.rs:413-435 | the signing guard |
| Lifecycle.KeyLifecycle.RetireKey | crates/keymesh-tss/src/lifecycle.rs:377-394 | one step of retirement |
| Lifecycle.KeyIdPreimageInjective | crates/keymesh-tss/src/lifecycle.rs:396-406 | key, threshold and version are determined by the key-id preimage |
| Lifecycle.KeyIdLayout | crates/keymesh-tss/src/lifecycle.rs:396-406 | the offset of every field in the key-id preimage |
| Lifecycle.RefreshKeeps | crates/keymesh-tss/src/lifecycle.rs:136-184 | refresh replaces the shares and nothing else, or nothing |
| Lifecycle.DkgYields | crates/keymesh-tss/src/lifecycle.rs:97-116 | creation succeeds exactly on a new key when the protocol does, and installs for each party what the protocol returned for it |
| Lifecycle.RefreshYields | crates/keymesh-tss/src/lifecycle.rs:124-184 | refresh succeeds exactly on an active key when the helper does, installs what that returned, and reports why it failed |
| Lifecycle.BeginRefusals | crates/keymesh-tss/src/lifecycle.rs:194-252 | beginning reports the first guard that does not hold |
| Lifecycle.ApplyRefusals | crates/keymesh-tss/src/lifecycle.rs:268-339 | applying reports a wrong state, a threshold that does not fit, or what the helper reports |
| Lifecycle.RotateReports | crates/keymesh-tss/src/lifecycle.rs:351-375 | a governed rotation reports what beginning or the resharing helper reports |
| Lifecycle.SigningRefusals | crates/keymesh-tss/src/lifecycle.rs:413-435 | signing reports retirement, a key in use, or both versions, each exactly in its case |
| Lifecycle.RetireRefusals | crates/keymesh-tss/src/lifecycle.rs:377-394 | retirement reports a key in use or a wrong state, each exactly in its case |
| Lifecycle.ApplyReleasesExactlyOnMatch | crates/keymesh-tss/src/lifecycle.rs:281-287 | a rotating key is released exactly when the threshold matches the request's |
| Lifecycle.RotatingBlocks | crates/keymesh-tss/src/lifecycle.rs:9-12 | a rotating key refuses creation, refresh, retirement, governed rotation and signing, unchanged |
| Lifecycle.MismatchedApplyStaysLocked | crates/keymesh-tss/src/lifecycle.rs:281-287 | a concrete run that ends rotating and locked |
| Lifecycle.RotationAllOrNothing | crates/keymesh-tss/src/lifecycle.rs:351-375 | refused beginnings change nothing; otherwise new material, next version and a completed request, or the key exactly as it was and a failed request |
| Lifecycle.MarkingCannotFail | crates/keymesh-tss/src/governance.rs:200-232 | once beginning succeeded, the marks of the governed rotation succeed |
| Lifecycle.BeginWasReleased | crates/keymesh-tss/src/lifecycle.rs:189-229 | whenever beginning succeeds, governed or direct, the request is for the current version and key, holds exactly its quorum of distinct approvals and is released |
| Lifecycle.RotationSucceedsExactlyWhen | crates/keymesh-tss/src/lifecycle.rs:194-252 | governed rotation succeeds exactly on an active key with a released request for its version and key when resharing succeeds |
| Lifecycle.RetirementEndsSigning | crates/keymesh-tss/src/lifecycle.rs:377-394 | retirement is open exactly to an active key and ends signing for every version |
| LifecycleRuns.AlwaysInvariant | crates/keymesh-tss/src/lifecycle.rs:97-394 | in every run the key is locked exactly while refreshing or rotating, its id is derived from key, threshold and version, its address belongs to its key, and every request satisfies its invariant |
| LifecycleRuns.Monotone | crates/keymesh-tss/src/lifecycle.rs:9-14 | between any two moments group key and address are the same, versions do not decrease, retirement is final, requests keep their terms |
| LifecycleRuns.StaleVersionNeverSigns | crates/keymesh-tss/src/lifecycle.rs:408-435 | a version once passed never signs again |
| LifecycleRuns.SigningExactlyWhenActive | crates/keymesh-tss/src/lifecycle.rs:412-435 | signing is allowed exactly on an active key at its current version |
| LifecycleRuns.VersionCountsRotations | crates/keymesh-tss/src/lifecycle.rs:327-339 | the version is one plus the number of successful rotations |
| LifecycleRuns.GovernedNeverLocked | crates/keymesh-tss/src/lifecycle.rs:350-375 | a governed run never leaves the key mid-way |
| LifecycleRuns.RotatingOrigin | crates/keymesh-tss/src/lifecycle.rs:189-256 | in every run a key found rotating was put there by a released request, and has since refused every other operation and stayed as it was |
| LifecycleRuns.RotatingExactly | crates/keymesh-tss/src/lifecycle.rs:189-348 | in every run the key is mid-rotation exactly when a beginning succeeded and nothing has ended it |
| LifecycleRuns.IncrementBacked | crates/keymesh-tss/src/lifecycle.rs:189-375 | in every run every increment, governed or applied directly, was authorised by a request for that version and key with exactly its quorum of distinct approvals, no earlier than quorum time plus a timelock of at least an hour |
| LifecycleRuns.InstalledAsApproved | crates/keymesh-tss/src/lifecycle.rs:261-348 | a rotation installs the parties and threshold of the terms it is given, so those approved exactly when the two agree in threshold and in the parties their names denote |
| LifecycleRuns.OwnTerms | crates/keymesh-tss/src/lifecycle.rs:351-375 | given the request that authorised it, a rotation is given the terms that were approved |
| LifecycleRuns.OwnRequest | crates/keymesh-tss/src/lifecycle.rs:189-375 | in every run no request authorises two increments, and authorising requests are for increasing versions; a rotation given its authorising request installs what was approved; a request rotated twice did not authorise both |
| LifecycleRuns.CancelledWhenRotated | crates/keymesh-tss/src/lifecycle.rs:189-348 | in every run the request that authorised a rotation is cancelled by the time of it exactly if a cancellation of it succeeded since |
| LifecycleRuns.GovernedNeverCancelled | crates/keymesh-tss/src/lifecycle.rs:351-375 | a request rotated through the governed entry point is cancelled at no moment of any run |
| LifecycleRuns.GovernedIsTied | crates/keymesh-tss/src/lifecycle.rs:351-375 | a run that rotates through the governed entry point alone gives every rotation the request that authorised it |
| DirectRotation.UnapprovedRequestRotates | crates/keymesh-tss/src/lifecycle.rs:261-348 | a concrete run in which a pending request without approvals rotates the key to its own participants |
| DirectRotation.RequestAppliedTwice | crates/keymesh-tss/src/lifecycle.rs:261-348 | a concrete run in which one pending request rotates the key twice |
| DirectRotation.CancelledRequestRotates | crates/keymesh-tss/src/lifecycle.rs:261-348 | a concrete run in which the request rotation began with is cancelled and then rotates the key |
| LifecycleRuns.RotatedRequestsCompleted | crates/keymesh-tss/src/lifecycle.rs:362-374 | in a governed run a request that rotated ends completed, for a version now passed |
| LifecycleRuns.CompletedExactly | crates/keymesh-tss/src/governance.rs:212-221 | in every run a request is completed exactly if a governed rotation of it or its own closing mark succeeded |
| LifecycleRuns.PartiesStayDistinct | crates/keymesh-tss/src/lifecycle.rs:612-651 | in every run no two participants ever share a party exactly when every rotation was given names that were apart at the time |
| LifecycleRuns.PartiesDistinctExactly | crates/keymesh-tss/src/lifecycle.rs:612-651 | at any moment of any run the parties are pairwise distinct exactly if the names given to the latest rotation were apart |
| Recovery.RecoveryRequest.InitiateRequest | crates/keymesh-core/src/recovery/mod.rs:135-186 | the guards in order, or a fresh pending request |
| Recovery.RecoveryRequest.ApproveBy | crates/keymesh-core/src/recovery/mod.rs:218-241 | one step of approval |
| Recovery.RecoveryRequest.FinalizeAt | crates/keymesh-core/src/recovery/mod.rs:258-278 | one step of finalization, with the remaining time on refusal |
| Recovery.RecoveryRequest.CancelRequest | crates/keymesh-core/src/recovery/mod.rs:244-253 | one step of cancellation |
| Recovery.RecoveryRequest.CanonicalBytes | crates/keymesh-core/src/recovery/mod.rs:294-307 | the encoder calls write the canonical bytes, panicking exactly above quorum 255 |
| Recovery.IntentReadsBack | crates/keymesh-core/src/recovery/mod.rs:294-307 | a reader of the bytes behind the tag finds the fields of the intent in the order written |
| Recovery.InitiationEstablishes | crates/keymesh-core/src/recovery/mod.rs:146-185 | exactly when a request can be opened, and that it then satisfies the invariant |
| Recovery.InitiationRefusals | crates/keymesh-core/src/recovery/mod.rs:146-173 | which error a refused request is reported with, exactly, and its numbers |
| Recovery.StepKeeps | crates/keymesh-core/src/recovery/mod.rs:55-66 | an operation succeeds exactly when the effective status allows it and the guardian is new; the invariant is kept and errors change nothing |
| Recovery.AllowsExactly | crates/keymesh-core/src/recovery/mod.rs:55-66 | which status allows which action, as the tests tabulate it |
| Recovery.StepSucceedsExactly | crates/keymesh-core/src/recovery/mod.rs:213-278 | when each operation succeeds, in terms of the stored status and the clock |
| Recovery.StepYields | crates/keymesh-core/src/recovery/mod.rs:213-278 | the whole next state of each success |
| Recovery.Refusals | crates/keymesh-core/src/recovery/mod.rs:213-278 | what each refused operation reports |
| Recovery.WaitingSuffices | crates/keymesh-core/src/recovery/mod.rs:258-278 | an early finalization reports the time left, and succeeds after waiting that long and no less |
| Recovery.FinalizationReplaces | crates/keymesh-core/src/recovery/mod.rs:258-278 | a finalization at any moment of any run names the devices fixed at initiation; applied to any device set, the new one is in, the replaced one out, the others untouched |
| Recovery.DistinctApprovalsReachQuorum | crates/keymesh-core/src/recovery/mod.rs:218-241 | any quorum-many pairwise distinct guardians bring a fresh request to its quorum, released the timelock after the last of them; fewer leave it pending |
| Recovery.RunLengthBound | crates/keymesh-core/src/recovery/mod.rs:213-278 | successful operations are approvals plus one for a terminal state, so at most quorum + 1 |
| Recovery.TerminalFrozen | crates/keymesh-core/src/recovery/mod.rs:41-51 | terminal states are frozen for the rest of any run |
| Recovery.ExecutionWasEarned | crates/keymesh-core/src/recovery/mod.rs:213-278 | an executed request had a full quorum of distinct guardians and was finalized no earlier than quorum time plus its timelock |
| Recovery.IntentBytesIdentify | crates/keymesh-core/src/recovery/mod.rs:280-307 | equal bytes exactly when the intents are equal up to absent versus empty replaced device |
| Recovery.Run | crates/keymesh-core/src/recovery/mod.rs:213-291 | in every run the invariant holds and the intent, all that the canonical bytes are made of, stays |
| TsRecovery.StepSimulates | packages/protocol/src/recovery.ts:71-107 | at any clock readings one operation leaves the machines in step, as a TypeScript no-op exactly on a Rust error, with one exact exception: a completion in the release second before its millisecond, which only Rust carries out |
| TsRecovery.AheadSteps | packages/protocol/src/recovery.ts:93-107 | once Rust is ahead it refuses everything, and TypeScript catches up by completing from the release millisecond on or is cancelled for good |
| TsRecovery.RecoveriesStayInStep | packages/protocol/src/recovery.ts:46-135 | from creation on, over every run, the machines are in step throughout exactly when no completion is tried in the second the timelock ends at an earlier millisecond than the quorum approval had; TypeScript completes only what Rust executed, and `approved` is unreachable |
| TsRecovery.PartedRun | packages/protocol/src/recovery.ts:71-107 | a concrete run that ends executed in Rust and cancelled in TypeScript |
| TsRecovery.CreationStamped | packages/protocol/src/recovery.ts:44-65 | a new record, its release time and the default of 168 hours |
| TsRecovery.StampsExactly | packages/protocol/src/recovery.ts:67-107 | a completed or cancelled record carries the moment it became so, any other none; which states can be cancelled or started |
| TsRecovery.DurationRemains | packages/protocol/src/recovery.ts:122-126 | the remaining timelock of a new record is its configured duration, or 0 if that is negative or the stored time is 0 |
| Transport.SimulatedTransport.DropFrom | crates/keymesh-tss-proto/src/transport.rs:26-28 | keeps the other senders' messages in order |
| Transport.WithoutSplits | crates/keymesh-tss-proto/src/transport.rs:26-28 | dropping goes message by message |
| Transport.WithoutOne | crates/keymesh-tss-proto/src/transport.rs:26-28 | and drops exactly a message of that sender |
| Transport.SimulatedTransport.Send | crates/keymesh-tss-proto/src/transport.rs:21-23 | appends a message |
| Transport.SimulatedTransport.DuplicateFirst | crates/keymesh-tss-proto/src/transport.rs:29-33 | appends a copy of the first message, if any |
| Transport.SimulatedTransport.Reorder | crates/keymesh-tss-proto/src/transport.rs:35-39 | swaps the first two messages, if there are two |
| Transport.SwappedPlaces | crates/keymesh-tss-proto/src/transport.rs:35-39 | where each message is after a swap |
| Transport.SimulatedTransport.ModifyFirstDigest | crates/keymesh-tss-proto/src/transport.rs:41-45 | replaces the digest of the first message, if any |
| Transport.SimulatedTransport.VerifyBinding | crates/keymesh-tss-proto/src/transport.rs:47-61 | passes exactly when all messages are bound; the first unbound one is reported |
| Transport.SimulatedTransport.CheckNoDuplicate | crates/keymesh-tss-proto/src/transport.rs:63-72 | passes exactly when sender and round never repeat; the first repetition is reported |
| Transport.SimulatedTransport.CheckRoundOrder | crates/keymesh-tss-proto/src/transport.rs:74-81 | passes exactly when all rounds are 1 to 3 |
| Transport.FaultsNoticed | crates/keymesh-tss-proto/src/transport.rs:25-81 | on a clean log, duplication and digest substitution are noticed, drops and swaps are not |

## Left out

- Hex.HexToBytes: counts a character beyond U+FFFF once, where TypeScript counts its two code units; none of them is a digit.
- Keygen.DealShares: does not model the seeded variant, whose loops are the same with another source of scalars.
- Session.TsDeriveSessionId: says nothing about a Rust counterpart for numbers outside u64, which the Rust fields cannot hold.
- Governance.TssRotationRequest.ApproveBy: does not model u64 overflow of `now + timelock`; numbers are unbounded here.
- Recovery.RecoveryRequest.ApproveBy: does not model u64 overflow of `now + timelock`; numbers are unbounded here.
- Recovery.RecoveryRequest.FinalizeAt: requires a release time once quorum is reached, as the `expect` in the source does; every run provides it.
- Recovery.RecoveryRequest.CanonicalBytes: takes the FNV domain tag, a constant of the crate, as a parameter.
- Lifecycle.KeyLifecycle.RunDkg: does not model the loops of `setup_2of3`; the protocol result enters as a group key with shares for parties 0 to 2.
- Resharing.DoRotationViaResharing: takes a successful run to have a result for every party of the session, so the panicking map lookups are not modelled; starts from material with at least one participant, as the code's index 0 does.
- Resharing.DoRefreshViaResharing: takes a successful run to have a result for every party of the session, so the panicking map lookups are not modelled; starts from material with at least one participant, as the code's index 0 does.
- TsRecovery.RecoveriesStayInStep: does not cover `expireRecovery`, because the Rust machine has no expiry; takes durations that are whole seconds, as the Rust ones are, and real arithmetic for the hours.
- Curve arithmetic, ECDSA, Keccak, Paillier and the synedrion and manul protocols: library code, parameters here.
- `verify_signature`, `to_bytes_65` and `TssEnvelope::verify`: a recovery call behind one-branch checks.
- TSS key ids across languages: Rust hashes the uncompressed point, TypeScript the compressed one, so they differ.
- Policy classification, wallet and guardian record helpers, transaction request records, the SDK's placeholder lifecycle: one-branch facts or stand-ins.
- Networking, storage, JSON framing, dashboards, scripts and the Solidity contracts.
