// Threshold signing: the gates in front of a signature, reconstruction of the
// signing scalar, the low-s rule and the recovered-key check.
//
// Curve operations are parameters gathered in `Ecdsa`; what the library
// promises about them is stated in `Faithful`.
module Signature {
  import opened Bytes
  import opened Outcome
  import opened PrimeField
  import opened Polynomials
  import opened Residues
  import opened Session
  import opened Shamir

  // Order of secp256k1 and the largest low value of s.
  const N: nat := 0xFFFFFFFF_FFFFFFFF_FFFFFFFF_FFFFFFFE_BAAEDCE6_AF48A03B_BFD25E8C_D0364141

  const N_BYTES: Bytes := [
    0xFF, 0xFF, 0xFF, 0xFF, 0xFF, 0xFF, 0xFF, 0xFF, 0xFF, 0xFF, 0xFF, 0xFF, 0xFF, 0xFF, 0xFF, 0xFE,
    0xBA, 0xAE, 0xDC, 0xE6, 0xAF, 0x48, 0xA0, 0x3B, 0xBF, 0xD2, 0x5E, 0x8C, 0xD0, 0x36, 0x41, 0x41]

  const HALF_N: Bytes := [
    0x7F, 0xFF, 0xFF, 0xFF, 0xFF, 0xFF, 0xFF, 0xFF, 0xFF, 0xFF, 0xFF, 0xFF, 0xFF, 0xFF, 0xFF, 0xFF,
    0x5D, 0x57, 0x6E, 0x73, 0x57, 0xA4, 0x50, 0x1D, 0xDF, 0xE9, 0x2F, 0x46, 0x68, 0x1B, 0x20, 0xA0]

  lemma NextByte(b: Bytes, k: nat, acc: nat)
    requires k < |b| && Value(b[..k]) == acc
    ensures Value(b[..k + 1]) == acc * 256 + b[k]
  {
    assert b[..k + 1][..k] == b[..k];
  }

  lemma NextWord(b: Bytes, k: nat, acc: nat, w0: Byte, w1: Byte, w2: Byte, w3: Byte)
    requires k + 4 <= |b| && Value(b[..k]) == acc
    requires b[k] == w0 && b[k + 1] == w1 && b[k + 2] == w2 && b[k + 3] == w3
    ensures Value(b[..k + 4]) == (((acc * 256 + w0) * 256 + w1) * 256 + w2) * 256 + w3
  {
    NextByte(b, k, acc);
    NextByte(b, k + 1, acc * 256 + w0);
    NextByte(b, k + 2, (acc * 256 + w0) * 256 + w1);
    NextByte(b, k + 3, ((acc * 256 + w0) * 256 + w1) * 256 + w2);
  }

  lemma OrderValue(b: Bytes)
    requires b == N_BYTES
    ensures Value(b) == N
  {
    assert b[..0] == [];
    NextWord(b, 0, 0, 0xFF, 0xFF, 0xFF, 0xFF);
    NextWord(b, 4, 0xFFFFFFFF, 0xFF, 0xFF, 0xFF, 0xFF);
    NextWord(b, 8, 0xFFFFFFFF_FFFFFFFF, 0xFF, 0xFF, 0xFF, 0xFF);
    NextWord(b, 12, 0xFFFFFFFF_FFFFFFFF_FFFFFFFF, 0xFF, 0xFF, 0xFF, 0xFE);
    NextWord(b, 16, 0xFFFFFFFF_FFFFFFFF_FFFFFFFF_FFFFFFFE, 0xBA, 0xAE, 0xDC, 0xE6);
    NextWord(b, 20, 0xFFFFFFFF_FFFFFFFF_FFFFFFFF_FFFFFFFE_BAAEDCE6, 0xAF, 0x48, 0xA0, 0x3B);
    NextWord(b, 24, 0xFFFFFFFF_FFFFFFFF_FFFFFFFF_FFFFFFFE_BAAEDCE6_AF48A03B, 0xBF, 0xD2, 0x5E, 0x8C);
    NextWord(b, 28, 0xFFFFFFFF_FFFFFFFF_FFFFFFFF_FFFFFFFE_BAAEDCE6_AF48A03B_BFD25E8C, 0xD0, 0x36, 0x41, 0x41);
    assert b[..32] == b;
  }

  // The byte constant both crates compare s with is (N - 1) / 2.
  lemma HalfOrderValue(b: Bytes)
    requires b == HALF_N
    ensures Value(b) == (N - 1) / 2
  {
    assert b[..0] == [];
    NextWord(b, 0, 0, 0x7F, 0xFF, 0xFF, 0xFF);
    NextWord(b, 4, 0x7FFFFFFF, 0xFF, 0xFF, 0xFF, 0xFF);
    NextWord(b, 8, 0x7FFFFFFF_FFFFFFFF, 0xFF, 0xFF, 0xFF, 0xFF);
    NextWord(b, 12, 0x7FFFFFFF_FFFFFFFF_FFFFFFFF, 0xFF, 0xFF, 0xFF, 0xFF);
    NextWord(b, 16, 0x7FFFFFFF_FFFFFFFF_FFFFFFFF_FFFFFFFF, 0x5D, 0x57, 0x6E, 0x73);
    NextWord(b, 20, 0x7FFFFFFF_FFFFFFFF_FFFFFFFF_FFFFFFFF_5D576E73, 0x57, 0xA4, 0x50, 0x1D);
    NextWord(b, 24, 0x7FFFFFFF_FFFFFFFF_FFFFFFFF_FFFFFFFF_5D576E73_57A4501D, 0xDF, 0xE9, 0x2F, 0x46);
    NextWord(b, 28, 0x7FFFFFFF_FFFFFFFF_FFFFFFFF_FFFFFFFF_5D576E73_57A4501D_DFE92F46, 0x68, 0x1B, 0x20, 0xA0);
    assert b[..32] == b;
  }

  // ----- Low s

  // Array comparison, as both `s_is_low` functions and the `s > HALF_N` test use it.
  predicate SIsLow(s: Bytes)
    requires |s| == 32
  {
    !LexLess(HALF_N, s)
  }

  lemma LowIsNumeric(s: Bytes)
    requires |s| == 32
    ensures SIsLow(s) <==> Value(s) <= (N - 1) / 2
  {
    HalfOrderValue(HALF_N);
    LexIsNumeric(HALF_N, s);
  }

  // The byte scan of the prototype: the first difference decides.
  method ScanGreater(s: Bytes, half: Bytes) returns (isHigh: bool)
    requires |s| == |half|
    ensures isHigh <==> Value(s) > Value(half)
  {
    isHigh := false;
    for i := 0 to |s|
      invariant !isHigh && s[..i] == half[..i]
    {
      if s[i] != half[i] {
        FirstDifferenceDecides(s, half, i);
      }
      if s[i] > half[i] {
        isHigh := true;
        return;
      } else if s[i] < half[i] {
        return;
      }
    }
    assert s == s[..|s|] == half[..|s|] == half;
  }

  // The scan, the array comparison and the numeric test are one test.
  method IsHigh(s: Bytes) returns (isHigh: bool)
    requires |s| == 32
    ensures isHigh <==> Value(s) > (N - 1) / 2
    ensures isHigh <==> !SIsLow(s)
  {
    LowIsNumeric(s);
    HalfOrderValue(HALF_N);
    isHigh := ScanGreater(s, HALF_N);
  }

  // The replacement N - s that the high-s branch is for: it is a valid low
  // value, and doing it twice gives s back.
  lemma NegationIsLow(s: Bytes, t: Bytes)
    requires |s| == 32 && (N - 1) / 2 < Value(s) < N && t == BE(N - Value(s), |s|)
    ensures 1 <= Value(t) <= (N - 1) / 2 && Value(t) == N - Value(s)
    ensures BE(N - Value(t), |s|) == s
  {
    OrderFits(|s|);
    OddHalf(N);
    Negated(s, t, N, (N - 1) / 2, |s|);
  }

  lemma OddHalf(n: nat)
    requires n % 2 == 1
    ensures n == 2 * ((n - 1) / 2) + 1
  {
  }

  lemma OrderFits(n: nat)
    requires n == 32
    ensures N < Pow256(n)
  {
    var order := N_BYTES;
    OrderValue(order);
    ValueBound(order);
  }

  lemma Negated(s: Bytes, t: Bytes, order: nat, half: nat, n: nat)
    requires |s| == n && order == 2 * half + 1 && half < Value(s) < order < Pow256(n) && t == BE(order - Value(s), n)
    ensures 1 <= Value(t) <= half && Value(t) == order - Value(s)
    ensures BE(order - Value(t), n) == s
  {
    ValueOfBE(order - Value(s), n);
    BEOfValue(s);
  }

  // Decoding of a canonical scalar; none for a value not below the order.
  function FromRepr(b: Bytes): Option<nat> {
    if Value(b) < N then Some(Value(b)) else None
  }

  // The order itself decodes to nothing: unwrapping it can only panic, and the
  // subtraction behind it is never reached.
  lemma OrderIsNoScalar(b: Bytes)
    requires b == N_BYTES
    ensures FromRepr(b).None?
  {
    OrderValue(b);
  }

  // A half that a signature decodes from: neither zero nor beyond the order.
  predicate ValidHalf(b: Bytes) {
    0 < Value(b) < N
  }

  // ----- Threshold signing

  type Key = Bytes

  datatype RawSignature = RawSignature(r: Bytes, s: Bytes, recoveryId: nat)

  datatype Ecdsa = Ecdsa(
    publicKey: nat -> Key,
    sign: (nat, Bytes) -> Option<RawSignature>,
    recover: (Bytes, Bytes, Bytes, nat) -> Option<Key>)

  datatype ThresholdSignature = ThresholdSignature(r: Bytes, s: Bytes, v: nat, digest: Bytes, sessionId: Bytes)

  datatype Refusal =
    | InsufficientShares(have: nat, need: nat)
    | DuplicateParticipant
    | SessionMismatch
    | ScalarToKey
    | SignFailed
    | RecoverFailed
    | KeyMismatch

  datatype SignOutcome = Signed(sig: ThresholdSignature) | Refused(reason: Refusal) | Panicked

  // The types of the library: 32-byte halves and a recovery id of two bits.
  ghost predicate Shaped(e: Ecdsa) {
    forall k: nat, d: Bytes :: e.sign(k, d).Some? ==>
      |e.sign(k, d).value.r| == 32 && |e.sign(k, d).value.s| == 32 && e.sign(k, d).value.recoveryId < 4
  }

  // And for correctness on scalars 1..q-1: signing succeeds with valid halves
  // and low s, the signer's key is recovered, and different scalars have
  // different keys.
  ghost predicate Faithful(e: Ecdsa, q: nat) {
    && Shaped(e)
    && (forall k: nat, d: Bytes :: 0 < k < q ==>
          e.sign(k, d).Some?
          && ValidHalf(e.sign(k, d).value.r) && ValidHalf(e.sign(k, d).value.s)
          && SIsLow(e.sign(k, d).value.s)
          && e.recover(d, e.sign(k, d).value.r, e.sign(k, d).value.s, e.sign(k, d).value.recoveryId)
             == Some(e.publicKey(k)))
    && (forall j: nat, k: nat :: 0 < j < q && 0 < k < q && e.publicKey(j) == e.publicKey(k) ==> j == k)
  }

  // What happens once the scalar x is reconstructed. A high s panics: the
  // branch decodes the group order itself as a scalar and unwraps the failure.
  // So does a half that the signature to recover from cannot be decoded with.
  function SignWith(e: Ecdsa, x: nat, groupKey: Key, digest: Bytes, sessionId: Bytes): SignOutcome
    requires x != 0 && e.sign(x, digest).Some? ==> |e.sign(x, digest).value.s| == 32
  {
    if x == 0 then Refused(ScalarToKey)
    else match e.sign(x, digest)
      case None => Refused(SignFailed)
      case Some(raw) =>
        if !SIsLow(raw.s) || !ValidHalf(raw.r) || !ValidHalf(raw.s) then Panicked
        else match e.recover(digest, raw.r, raw.s, raw.recoveryId)
          case None => Refused(RecoverFailed)
          case Some(key) =>
            if key != groupKey then Refused(KeyMismatch)
            else Signed(ThresholdSignature(raw.r, raw.s, raw.recoveryId + 27, digest, sessionId))
  }

  ghost function SignOutcomeOf(shares: seq<ParticipantShare>, groupKey: Key, binding: SessionBinding, sessionId: Bytes,
                               threshold: nat, e: Ecdsa, keccak: Bytes -> Bytes, q: nat): SignOutcome
    requires IsPrime(q) && q > 255 && Shaped(e)
  {
    if |shares| < threshold then Refused(InsufficientShares(|shares|, threshold))
    else if !Distinct(Indices(shares)) then Refused(DuplicateParticipant)
    else if keccak(SessionPreimage(binding)) != sessionId then Refused(SessionMismatch)
    else
      SharePoints(shares, q);
      InterpolateRange(Indices(shares), Secrets(shares), q);
      SignWith(e, Interpolate(Indices(shares), Secrets(shares), q), groupKey, binding.digest, sessionId)
  }

  lemma InterpolateRange(xs: seq<int>, ys: seq<int>, q: nat)
    requires IsPrime(q) && Points(xs, q) && |xs| == |ys|
    ensures 0 <= Interpolate(xs, ys, q) < q
  {
  }

  // The scan for a repeated participant.
  method RepeatsIndex(shares: seq<ParticipantShare>) returns (repeated: bool)
    ensures repeated <==> !Distinct(Indices(shares))
  {
    var seen: set<Byte> := {};
    for i := 0 to |shares|
      invariant seen == set j | 0 <= j < i :: shares[j].index
      invariant forall a, b :: 0 <= a < b < i ==> shares[a].index != shares[b].index
    {
      if shares[i].index in seen {
        var j :| 0 <= j < i && shares[j].index == shares[i].index;
        assert Indices(shares)[j] == Indices(shares)[i];
        return true;
      }
      seen := seen + {shares[i].index};
    }
    assert Distinct(Indices(shares));
    repeated := false;
  }

  method ThresholdSign(shares: seq<ParticipantShare>, groupKey: Key, binding: SessionBinding, sessionId: Bytes,
                       threshold: nat, e: Ecdsa, keccak: Bytes -> Bytes, q: nat)
    returns (outcome: SignOutcome)
    requires IsPrime(q) && q > 255 && ValidShares(shares, q) && Shaped(e) && Typed(binding)
    ensures outcome == SignOutcomeOf(shares, groupKey, binding, sessionId, threshold, e, keccak, q)
  {
    if |shares| < threshold {
      return Refused(InsufficientShares(|shares|, threshold));
    }
    var repeated := RepeatsIndex(shares);
    if repeated {
      return Refused(DuplicateParticipant);
    }
    var derived := DeriveSessionId(binding, keccak);
    if derived != sessionId {
      return Refused(SessionMismatch);
    }
    var x := LagrangeInterpolateAtZero(shares, q);
    if x.value == 0 {
      return Refused(ScalarToKey);
    }
    var raw := e.sign(x.value, binding.digest);
    if raw.None? {
      return Refused(SignFailed);
    }
    var RawSignature(r, s, recoveryId) := raw.value;
    var v := recoveryId + 27;
    var isHigh := IsHigh(s);
    if isHigh {
      if FromRepr(s).None? {
        return Panicked;
      }
      OrderIsNoScalar(N_BYTES);
      assert FromRepr(N_BYTES).None?;
      return Panicked;
    }
    if !ValidHalf(r) || !ValidHalf(s) {
      return Panicked;
    }
    var recovered := e.recover(binding.digest, r, s, v - 27);
    if recovered.None? {
      return Refused(RecoverFailed);
    }
    if recovered.value != groupKey {
      return Refused(KeyMismatch);
    }
    outcome := Signed(ThresholdSignature(r, s, v, binding.digest, sessionId));
  }

  // The signature carries what the library signed and the session it is bound to.
  predicate IsSignatureOf(sig: ThresholdSignature, raw: RawSignature, binding: SessionBinding, keccak: Bytes -> Bytes) {
    && sig.r == raw.r && sig.s == raw.s && sig.v == 27 + raw.recoveryId
    && sig.digest == binding.digest && sig.sessionId == keccak(SessionPreimage(binding))
  }

  // The gates before the shares are put together.
  ghost predicate GatesPassed(shares: seq<ParticipantShare>, binding: SessionBinding, sessionId: Bytes,
                              threshold: nat, keccak: Bytes -> Bytes) {
    threshold <= |shares| && Distinct(Indices(shares)) && keccak(SessionPreimage(binding)) == sessionId
  }

  // Which gate refuses, for any library: the first that does not hold.
  lemma {:induction false} EarlyRefusals(
    shares: seq<ParticipantShare>, groupKey: Key, binding: SessionBinding, sessionId: Bytes, threshold: nat, e: Ecdsa,
    keccak: Bytes -> Bytes, q: nat)
    requires IsPrime(q) && q > 255 && Shaped(e)
    ensures var outcome := SignOutcomeOf(shares, groupKey, binding, sessionId, threshold, e, keccak, q);
            && (outcome == Refused(InsufficientShares(|shares|, threshold)) <==> |shares| < threshold)
            && (outcome == Refused(DuplicateParticipant) <==> threshold <= |shares| && !Distinct(Indices(shares)))
            && (outcome == Refused(SessionMismatch) <==>
                  threshold <= |shares| && Distinct(Indices(shares)) && keccak(SessionPreimage(binding)) != sessionId)
            && (GatesPassed(shares, binding, sessionId, threshold, keccak) <==>
                  outcome.Signed? || outcome.Panicked?
                  || outcome.reason in {ScalarToKey, SignFailed, RecoverFailed, KeyMismatch})
  {
  }

  // And once the gates are passed, what the library makes of the scalar decides.
  lemma {:induction false} LateRefusals(
    shares: seq<ParticipantShare>, groupKey: Key, binding: SessionBinding, sessionId: Bytes, threshold: nat, e: Ecdsa,
    keccak: Bytes -> Bytes, q: nat)
    requires IsPrime(q) && q > 255 && Shaped(e) && GatesPassed(shares, binding, sessionId, threshold, keccak)
    ensures Points(Indices(shares), q) && 0 <= Interpolate(Indices(shares), Secrets(shares), q)
    ensures var outcome := SignOutcomeOf(shares, groupKey, binding, sessionId, threshold, e, keccak, q);
            var x: nat := Interpolate(Indices(shares), Secrets(shares), q);
            var raw := e.sign(x, binding.digest);
            && (outcome == Refused(ScalarToKey) <==> x == 0)
            && (outcome == Refused(SignFailed) <==> x != 0 && raw.None?)
            && (outcome == Panicked <==> x != 0 && raw.Some? && !Usable(raw.value))
            && (outcome == Refused(RecoverFailed) <==>
                  x != 0 && raw.Some? && Usable(raw.value) && RecoveredFrom(e, binding.digest, raw.value).None?)
            && (outcome == Refused(KeyMismatch) <==>
                  x != 0 && raw.Some? && Usable(raw.value)
                  && RecoveredFrom(e, binding.digest, raw.value).Some?
                  && RecoveredFrom(e, binding.digest, raw.value) != Some(groupKey))
            && (outcome.Signed? <==>
                  x != 0 && raw.Some? && Usable(raw.value)
                  && RecoveredFrom(e, binding.digest, raw.value) == Some(groupKey))
            && (outcome.Signed? ==> IsSignatureOf(outcome.sig, raw.value, binding, keccak))
  {
    SharePoints(shares, q);
    InterpolateRange(Indices(shares), Secrets(shares), q);
    var raw := e.sign(Interpolate(Indices(shares), Secrets(shares), q), binding.digest);
    if raw.Some? {
      LowIsNumeric(raw.value.s);
    }
  }

  // Numerically: s at most half the order, and neither half zero or beyond it.
  predicate Usable(raw: RawSignature) {
    Value(raw.s) <= (N - 1) / 2 && 0 < Value(raw.r) < N && 0 < Value(raw.s) < N
  }

  function RecoveredFrom(e: Ecdsa, digest: Bytes, raw: RawSignature): Option<Key> {
    e.recover(digest, raw.r, raw.s, raw.recoveryId)
  }

  // With a library that keeps its promises, signing succeeds exactly when
  // enough distinct shares under the right session reconstruct the scalar of
  // the group key; and it never panics.
  lemma {:induction false} SignsExactlyWhenReconstructed(
    shares: seq<ParticipantShare>, x: nat, binding: SessionBinding, sessionId: Bytes, threshold: nat, e: Ecdsa,
    keccak: Bytes -> Bytes, q: nat)
    requires IsPrime(q) && q > 255 && Faithful(e, q) && 0 < x < q
    ensures var outcome := SignOutcomeOf(shares, e.publicKey(x), binding, sessionId, threshold, e, keccak, q);
            && !outcome.Panicked?
            && (outcome.Signed? <==>
                  && threshold <= |shares|
                  && Distinct(Indices(shares))
                  && keccak(SessionPreimage(binding)) == sessionId
                  && Points(Indices(shares), q)
                  && Interpolate(Indices(shares), Secrets(shares), q) == x)
            && (outcome.Signed? ==>
                  && SIsLow(outcome.sig.s)
                  && e.recover(binding.digest, outcome.sig.r, outcome.sig.s, outcome.sig.v - 27) == Some(e.publicKey(x))
                  && IsSignatureOf(outcome.sig, e.sign(x, binding.digest).value, binding, keccak))
  {
    if Distinct(Indices(shares)) {
      SharePoints(shares, q);
      InterpolateRange(Indices(shares), Secrets(shares), q);
    }
  }

  // Replacing one share's value in an otherwise good signing set is refused.
  lemma {:induction false} TamperedShareRefused(
    shares: seq<ParticipantShare>, k: nat, y: nat, x: nat, binding: SessionBinding, sessionId: Bytes, threshold: nat,
    e: Ecdsa, keccak: Bytes -> Bytes, q: nat)
    requires IsPrime(q) && q > 255 && Faithful(e, q) && 0 < x < q && ValidShares(shares, q)
    requires k < |shares| && y < q && y != shares[k].secretShare
    requires forall i :: 0 <= i < |shares| ==> shares[i].index != 0
    requires SignOutcomeOf(shares, e.publicKey(x), binding, sessionId, threshold, e, keccak, q).Signed?
    ensures SignOutcomeOf(shares[k := shares[k].(secretShare := y)], e.publicKey(x), binding, sessionId, threshold,
                          e, keccak, q).Refused?
  {
    var bad := shares[k := shares[k].(secretShare := y)];
    SignsExactlyWhenReconstructed(shares, x, binding, sessionId, threshold, e, keccak, q);
    SignsExactlyWhenReconstructed(bad, x, binding, sessionId, threshold, e, keccak, q);
    var xs, ys := Indices(shares), Secrets(shares);
    assert Indices(bad) == xs && Secrets(bad) == ys[k := y as int];
    TamperedShareChangesSecret(xs, ys, k, y, q);
    ModUnique(y, 0, y, q);
    ModUnique(ys[k], 0, ys[k], q);
  }

  // ----- Subset validation of the production signer

  datatype SubsetError = TooFew(have: nat, need: nat) | WrongSession | UnknownParticipant | RepeatedParticipant

  // No position before i is out of range or repeated.
  predicate CleanBefore(subset: seq<nat>, n: nat, i: nat)
    requires i <= |subset|
  {
    (forall j :: 0 <= j < i ==> subset[j] < n) && (forall j, k :: 0 <= j < k < i ==> subset[j] != subset[k])
  }

  // The first offending position decides the error.
  method ValidateSubset(subset: seq<nat>, n: nat, threshold: nat, binding: SessionBinding, sessionId: Bytes,
                        keccak: Bytes -> Bytes)
    returns (r: Result<(), SubsetError>)
    requires Typed(binding)
    ensures r == Err(TooFew(|subset|, threshold)) <==> |subset| < threshold
    ensures r == Err(WrongSession) <==> threshold <= |subset| && keccak(SessionPreimage(binding)) != sessionId
    ensures var reached := threshold <= |subset| && keccak(SessionPreimage(binding)) == sessionId;
            && (r.Ok? <==> reached && CleanBefore(subset, n, |subset|))
            && (r == Err(UnknownParticipant) <==>
                  reached && exists i :: 0 <= i < |subset| && CleanBefore(subset, n, i) && subset[i] >= n)
            && (r == Err(RepeatedParticipant) <==>
                  reached && exists i :: 0 <= i < |subset| && CleanBefore(subset, n, i) && subset[i] < n
                                       && exists j :: 0 <= j < i && subset[j] == subset[i])
  {
    if |subset| < threshold {
      return Err(TooFew(|subset|, threshold));
    }
    var derived := DeriveSessionId(binding, keccak);
    if derived != sessionId {
      return Err(WrongSession);
    }
    var seen: set<nat> := {};
    for i := 0 to |subset|
      invariant seen == set j | 0 <= j < i :: subset[j]
      invariant CleanBefore(subset, n, i)
    {
      if subset[i] >= n {
        assert forall k :: i < k <= |subset| ==> !CleanBefore(subset, n, k);
        return Err(UnknownParticipant);
      }
      if subset[i] in seen {
        assert forall k :: i < k <= |subset| ==> !CleanBefore(subset, n, k);
        return Err(RepeatedParticipant);
      }
      seen := seen + {subset[i]};
    }
    r := Ok(());
  }
}
