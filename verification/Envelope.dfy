// Authenticated protocol envelopes: the bytes that are signed, and the checks
// against a session context.
module Envelope {
  import opened Bytes
  import opened Outcome
  import opened Utf8

  // Strings are their UTF-8 bytes.
  datatype TssEnvelope = TssEnvelope(
    protocolVersion: Bytes, sessionId: Bytes, wallet: Bytes, chainId: nat, participantId: Byte, round: Byte,
    messageType: Bytes, digest: Bytes, payload: Bytes)

  // The field types of the Rust struct.
  predicate Typed(e: TssEnvelope) {
    Sized(e) && WellFormed(e.protocolVersion) && WellFormed(e.messageType)
  }

  predicate Sized(e: TssEnvelope) {
    |e.sessionId| == 32 && |e.wallet| == 20 && |e.digest| == 32 && e.chainId < TWO_64
  }

  // The fixed-width fields between the two zero-terminated strings.
  function Middle(e: TssEnvelope): Bytes {
    e.sessionId + e.wallet + BE(e.chainId, 8) + [e.participantId] + [e.round]
  }

  function SignBytes(e: TssEnvelope): Bytes {
    e.protocolVersion + [0] + (Middle(e) + (e.messageType + [0] + (e.digest + e.payload)))
  }

  // Field by field: where each part of the signed bytes lies.
  lemma SignBytesLayout(e: TssEnvelope, k: nat, p: nat)
    requires Sized(e) && k == |e.protocolVersion| && p == k + 63 + |e.messageType|
    ensures var b := SignBytes(e);
            && |b| == p + 33 + |e.payload|
            && b[..k] == e.protocolVersion && b[k] == 0
            && b[k + 1..k + 33] == e.sessionId && b[k + 33..k + 53] == e.wallet
            && b[k + 53..k + 61] == BE(e.chainId, 8) && b[k + 61] == e.participantId && b[k + 62] == e.round
            && b[k + 63..p] == e.messageType && b[p] == 0 && b[p + 1..p + 33] == e.digest && b[p + 33..] == e.payload
  {
    LaidOut(SignBytes(e), e.protocolVersion, e.sessionId, e.wallet, BE(e.chainId, 8), e.participantId, e.round,
            e.messageType, e.digest, e.payload);
  }

  lemma LaidOut(b: Bytes, v: Bytes, s: Bytes, w: Bytes, c: Bytes, i: Byte, r: Byte, t: Bytes, d: Bytes, x: Bytes)
    requires |s| == 32 && |w| == 20 && |c| == 8 && |d| == 32
    requires b == v + [0] + ((s + w + c + [i] + [r]) + (t + [0] + (d + x)))
    ensures var k, p := |v|, |v| + 63 + |t|;
            && |b| == p + 33 + |x|
            && b[..k] == v && b[k] == 0
            && b[k + 1..k + 33] == s && b[k + 33..k + 53] == w
            && b[k + 53..k + 61] == c && b[k + 61] == i && b[k + 62] == r
            && b[k + 63..p] == t && b[p] == 0 && b[p + 1..p + 33] == d && b[p + 33..] == x
  {
  }

  method ToSignBytes(e: TssEnvelope) returns (out: Bytes)
    requires Typed(e)
    ensures out == SignBytes(e)
  {
    out := [];
    out := out + e.protocolVersion;
    out := out + [0];
    out := out + e.sessionId;
    out := out + e.wallet;
    out := out + BE(e.chainId, 8);
    out := out + [e.participantId];
    out := out + [e.round];
    out := out + e.messageType;
    out := out + [0];
    out := out + e.digest;
    out := out + e.payload;
    AppendedIsSignBytes(e);
  }

  lemma AppendedIsSignBytes(e: TssEnvelope)
    ensures [] + e.protocolVersion + [0] + e.sessionId + e.wallet + BE(e.chainId, 8) + [e.participantId] + [e.round]
            + e.messageType + [0] + e.digest + e.payload
         == SignBytes(e)
  {
  }

  predicate ZeroFree(s: Bytes) {
    0 !in s
  }

  lemma FirstZero(a: Bytes, x: Bytes)
    requires ZeroFree(a)
    ensures var s := a + [0] + x;
            s[|a|] == 0 && forall i :: 0 <= i < |a| ==> s[i] != 0
  {
  }

  // A zero-free string ends where its terminator is.
  lemma TerminatorSplits(a: Bytes, x: Bytes, b: Bytes, y: Bytes)
    requires ZeroFree(a) && ZeroFree(b) && a + [0] + x == b + [0] + y
    ensures a == b && x == y
  {
    FirstZero(a, x);
    FirstZero(b, y);
    CancelPrefix(a + [0], x, b + [0], y);
    CancelPrefix(a, [0], b, [0]);
  }

  lemma MiddleInjective(e: TssEnvelope, f: TssEnvelope)
    requires Sized(e) && Sized(f) && Middle(e) == Middle(f)
    ensures e.sessionId == f.sessionId && e.wallet == f.wallet && e.chainId == f.chainId
    ensures e.participantId == f.participantId && e.round == f.round
  {
    var e3, f3 := e.sessionId + e.wallet + BE(e.chainId, 8), f.sessionId + f.wallet + BE(f.chainId, 8);
    CancelPrefix(e3 + [e.participantId], [e.round], f3 + [f.participantId], [f.round]);
    CancelPrefix(e3, [e.participantId], f3, [f.participantId]);
    CancelPrefix(e.sessionId + e.wallet, BE(e.chainId, 8), f.sessionId + f.wallet, BE(f.chainId, 8));
    CancelPrefix(e.sessionId, e.wallet, f.sessionId, f.wallet);
    PowersOf256();
    BEInjective(e.chainId, f.chainId, 8);
  }

  // What follows the protocol version determines the rest.
  lemma RestInjective(e: TssEnvelope, f: TssEnvelope)
    requires Typed(e) && Typed(f) && ZeroFree(e.messageType) && ZeroFree(f.messageType)
    requires Middle(e) + (e.messageType + [0] + (e.digest + e.payload))
          == Middle(f) + (f.messageType + [0] + (f.digest + f.payload))
    ensures e == f.(protocolVersion := e.protocolVersion)
  {
    CancelPrefix(Middle(e), e.messageType + [0] + (e.digest + e.payload),
                 Middle(f), f.messageType + [0] + (f.digest + f.payload));
    MiddleInjective(e, f);
    TerminatorSplits(e.messageType, e.digest + e.payload, f.messageType, f.digest + f.payload);
    CancelPrefix(e.digest, e.payload, f.digest, f.payload);
  }

  // Signed bytes determine the envelope when neither string holds a zero byte.
  lemma SignBytesInjective(e: TssEnvelope, f: TssEnvelope)
    requires Typed(e) && Typed(f) && SignBytes(e) == SignBytes(f)
    requires ZeroFree(e.protocolVersion) && ZeroFree(f.protocolVersion)
    requires ZeroFree(e.messageType) && ZeroFree(f.messageType)
    ensures e == f
  {
    TerminatorSplits(e.protocolVersion, Middle(e) + (e.messageType + [0] + (e.digest + e.payload)),
                     f.protocolVersion, Middle(f) + (f.messageType + [0] + (f.digest + f.payload)));
    RestInjective(e, f);
  }

  // ----- Every reading of signed bytes

  // The bytes can be read with the version ending at k and the type at p.
  predicate Readable(b: Bytes, k: nat, p: nat) {
    && k + 63 <= p && p + 33 <= |b| && b[k] == 0 && b[p] == 0
    && WellFormed(b[..k]) && WellFormed(b[k + 63..p])
  }

  function ReadAt(b: Bytes, k: nat, p: nat): TssEnvelope
    requires k + 63 <= p && p + 33 <= |b|
  {
    TssEnvelope(b[..k], b[k + 1..k + 33], b[k + 33..k + 53], Value(b[k + 53..k + 61]), b[k + 61], b[k + 62],
                b[k + 63..p], b[p + 1..p + 33], b[p + 33..])
  }

  function VersionEnd(e: TssEnvelope): nat {
    |e.protocolVersion|
  }

  function TypeEnd(e: TssEnvelope): nat {
    |e.protocolVersion| + 63 + |e.messageType|
  }

  // Two places fix the reading: an envelope has these signed bytes exactly when
  // they can be read at the ends of its two strings and it is that reading.
  lemma {:induction false} ReadingsAre(b: Bytes, e: TssEnvelope)
    ensures Typed(e) && SignBytes(e) == b <==>
              Readable(b, VersionEnd(e), TypeEnd(e)) && e == ReadAt(b, VersionEnd(e), TypeEnd(e))
  {
    if Typed(e) && SignBytes(e) == b {
      ReadBack(e);
    }
    if Readable(b, VersionEnd(e), TypeEnd(e)) && e == ReadAt(b, VersionEnd(e), TypeEnd(e)) {
      WrittenBack(b, VersionEnd(e), TypeEnd(e));
    }
  }

  // The fixed-width fields spell the bytes they were read from.
  lemma MiddleOfRead(b: Bytes, k: nat, p: nat)
    requires k + 63 <= p && p + 33 <= |b|
    ensures Middle(ReadAt(b, k, p)) == b[k + 1..k + 63] && Sized(ReadAt(b, k, p))
  {
    var m := b[k + 53..k + 61];
    PowersOf256();
    ValueBound(m);
    BEOfValue(m);
    RejoinMiddle(b, k);
  }

  lemma RejoinMiddle(b: Bytes, k: nat)
    requires k + 63 <= |b|
    ensures b[k + 1..k + 33] + b[k + 33..k + 53] + b[k + 53..k + 61] + [b[k + 61]] + [b[k + 62]] == b[k + 1..k + 63]
  {
  }

  lemma WrittenBack(b: Bytes, k: nat, p: nat)
    requires Readable(b, k, p)
    ensures Typed(ReadAt(b, k, p)) && SignBytes(ReadAt(b, k, p)) == b
  {
    MiddleOfRead(b, k, p);
    RejoinAll(b, k, p);
  }

  lemma RejoinAll(b: Bytes, k: nat, p: nat)
    requires k + 63 <= p && p + 33 <= |b| && b[k] == 0 && b[p] == 0
    ensures b[..k] + [0] + (b[k + 1..k + 63] + (b[k + 63..p] + [0] + (b[p + 1..p + 33] + b[p + 33..]))) == b
  {
    calc {
      b[..k] + [0] + (b[k + 1..k + 63] + (b[k + 63..p] + [0] + (b[p + 1..p + 33] + b[p + 33..])));
      { JoinSlices(b, p + 1, p + 33); }
      b[..k] + [0] + (b[k + 1..k + 63] + (b[k + 63..p] + [0] + b[p + 1..]));
      { JoinAround(b, k + 63, p); }
      b[..k] + [0] + (b[k + 1..k + 63] + b[k + 63..]);
      { JoinSlices(b, k + 1, k + 63); }
      b[..k] + [0] + b[k + 1..];
      { JoinAround(b, 0, k); }
      b;
    }
  }

  lemma JoinSlices(b: Bytes, i: nat, j: nat)
    requires i <= j <= |b|
    ensures b[i..j] + b[j..] == b[i..]
  {
  }

  lemma JoinAround(b: Bytes, i: nat, j: nat)
    requires i <= j < |b|
    ensures b[i..j] + [b[j]] + b[j + 1..] == b[i..]
  {
  }

  lemma ReadBack(e: TssEnvelope)
    requires Typed(e)
    ensures Readable(SignBytes(e), VersionEnd(e), TypeEnd(e))
    ensures e == ReadAt(SignBytes(e), VersionEnd(e), TypeEnd(e))
  {
    var b, k, p := SignBytes(e), VersionEnd(e), TypeEnd(e);
    TakeApart(b, e.protocolVersion, Middle(e), e.messageType, e.digest, e.payload);
    FieldsRead(b, k, p, e);
  }

  lemma FieldsRead(b: Bytes, k: nat, p: nat, e: TssEnvelope)
    requires Typed(e) && k + 63 <= p && p + 33 <= |b| && b[k] == 0 && b[p] == 0
    requires b[..k] == e.protocolVersion && b[k + 1..k + 63] == Middle(e) && b[k + 63..p] == e.messageType
    requires b[p + 1..p + 33] == e.digest && b[p + 33..] == e.payload
    ensures Readable(b, k, p) && e == ReadAt(b, k, p)
  {
    MiddleOfRead(b, k, p);
    MiddleInjective(e, ReadAt(b, k, p));
  }

  lemma TakeApart(b: Bytes, v: Bytes, m: Bytes, t: Bytes, d: Bytes, x: Bytes)
    requires |m| == 62 && |d| == 32 && b == v + [0] + (m + (t + [0] + (d + x)))
    ensures var k, p := |v|, |v| + 63 + |t|;
            && p + 33 <= |b| && b[..k] == v && b[k] == 0 && b[k + 1..k + 63] == m && b[k + 63..p] == t && b[p] == 0
            && b[p + 1..p + 33] == d && b[p + 33..] == x
  {
  }

  // Signed bytes belong to a second envelope exactly when they can be read at a
  // second pair of places.
  lemma {:induction false} AmbiguousExactlyWhen(e: TssEnvelope)
    requires Typed(e)
    ensures (exists f :: Typed(f) && f != e && SignBytes(f) == SignBytes(e)) <==>
              exists k: nat, p: nat :: Readable(SignBytes(e), k, p) && (k != VersionEnd(e) || p != TypeEnd(e))
  {
    var b := SignBytes(e);
    ReadingsAre(b, e);
    if f :| Typed(f) && f != e && SignBytes(f) == b {
      ReadingsAre(b, f);
      assert Readable(b, VersionEnd(f), TypeEnd(f));
    }
    if k: nat, p: nat :| Readable(b, k, p) && (k != VersionEnd(e) || p != TypeEnd(e)) {
      WrittenBack(b, k, p);
      EndsOfRead(b, k, p);
      assert ReadAt(b, k, p) != e;
    }
  }

  lemma EndsOfRead(b: Bytes, k: nat, p: nat)
    requires k + 63 <= p && p + 33 <= |b|
    ensures VersionEnd(ReadAt(b, k, p)) == k && TypeEnd(ReadAt(b, k, p)) == p
  {
  }

  lemma PrefixOfSlice(b: Bytes, at: nat, t: Bytes, i: nat)
    requires at + |t| <= |b| && b[at..at + |t|] == t && i < |t|
    ensures b[at + i] == t[i] && b[at..at + i] == t[..i]
  {
    assert b[at..at + |t|][i] == t[i] && b[at..at + |t|][..i] == t[..i];
  }

  // An earlier zero byte within the type closes a type too.
  lemma ShorterType(b: Bytes, k: nat, p: nat, q: nat)
    requires Readable(b, k, p) && k + 63 <= q < p && b[q] == 0
    ensures Readable(b, k, q)
  {
    PrefixOfSlice(b, k + 63, b[k + 63..p], q - (k + 63));
    CutAtZero(b[k + 63..p], q - (k + 63));
  }

  // A zero byte in the message type always gives a second reading, in which
  // the type ends there.
  lemma {:induction false} ZeroInTypeIsAmbiguous(e: TssEnvelope) returns (f: TssEnvelope)
    requires Typed(e) && !ZeroFree(e.messageType)
    ensures Typed(f) && f != e && SignBytes(f) == SignBytes(e)
  {
    var i :| 0 <= i < |e.messageType| && e.messageType[i] == 0;
    var b, k, p := SignBytes(e), VersionEnd(e), TypeEnd(e);
    ReadBack(e);
    f := ReadShorter(b, k, p, e.messageType, i);
  }

  lemma ReadShorter(b: Bytes, k: nat, p: nat, t: Bytes, i: nat) returns (f: TssEnvelope)
    requires Readable(b, k, p) && b[k + 63..p] == t && i < |t| && t[i] == 0
    ensures Typed(f) && SignBytes(f) == b && TypeEnd(f) == k + 63 + i
  {
    PrefixOfSlice(b, k + 63, t, i);
    ShorterType(b, k, p, k + 63 + i);
    f := Read(b, k, k + 63 + i);
  }

  lemma Read(b: Bytes, k: nat, p: nat) returns (e: TssEnvelope)
    requires Readable(b, k, p)
    ensures e == ReadAt(b, k, p) && Typed(e) && SignBytes(e) == b
    ensures VersionEnd(e) == k && TypeEnd(e) == p && e.protocolVersion == b[..k]
  {
    e := ReadAt(b, k, p);
    WrittenBack(b, k, p);
    EndsOfRead(b, k, p);
  }

  // A zero byte in the protocol version gives a second reading that ends the
  // version there exactly when a zero byte far enough behind it, with a digest
  // after it, closes a well-formed type.
  lemma {:induction false} ZeroInVersionExactly(e: TssEnvelope, k: nat)
    requires Typed(e) && k < |e.protocolVersion| && e.protocolVersion[k] == 0
    ensures var b := SignBytes(e);
            (exists f :: Typed(f) && SignBytes(f) == b && VersionEnd(f) == k) <==>
              exists p :: k + 63 <= p < |b| - 32 && b[p] == 0 && WellFormed(b[k + 63..p])
  {
    var b := SignBytes(e);
    CutVersion(b, e, k);
    VersionReadings(b, k);
  }

  lemma VersionReadings(b: Bytes, k: nat)
    requires k < |b| && b[k] == 0 && WellFormed(b[..k])
    ensures (exists f :: Typed(f) && SignBytes(f) == b && VersionEnd(f) == k) <==>
              exists p :: k + 63 <= p < |b| - 32 && b[p] == 0 && WellFormed(b[k + 63..p])
  {
    if f :| Typed(f) && SignBytes(f) == b && VersionEnd(f) == k {
      ReadingsAre(b, f);
    }
    if p :| k + 63 <= p < |b| - 32 && b[p] == 0 && WellFormed(b[k + 63..p]) {
      var f := Read(b, k, p);
    }
  }

  lemma CutVersion(b: Bytes, e: TssEnvelope, k: nat)
    requires b == SignBytes(e) && WellFormed(e.protocolVersion)
    requires k < |e.protocolVersion| && e.protocolVersion[k] == 0
    ensures |b| > k && b[k] == 0 && WellFormed(b[..k])
  {
    CutAtZero(e.protocolVersion, k);
    assert b[..k] == e.protocolVersion[..k];
  }

  // It need not: here the second type would hold a byte that UTF-8 never uses.
  lemma {:induction false} ZeroInVersionUnambiguous() returns (e: TssEnvelope)
    ensures Typed(e) && !ZeroFree(e.protocolVersion)
    ensures forall f :: Typed(f) && SignBytes(f) == SignBytes(e) ==> f == e
  {
    var b := [0] + [0] + (Filled(60) + [1, 255] + ([0] + Filled(32)));
    assert b[..1] == [0] && b[64..64] == [];
    forall k: nat, p: nat | Readable(b, k, p) ensures k == 1 && p == 64 {
      OneReading(b, k, p);
    }
    e := OnlyReading(b, 1, 64);
  }

  lemma OnlyReading(b: Bytes, k: nat, p: nat) returns (e: TssEnvelope)
    requires Readable(b, k, p) && forall k': nat, p': nat :: Readable(b, k', p') ==> k' == k && p' == p
    ensures Typed(e) && SignBytes(e) == b && e.protocolVersion == b[..k]
    ensures forall f :: Typed(f) && SignBytes(f) == b ==> f == e
  {
    e := Read(b, k, p);
    forall f | Typed(f) && SignBytes(f) == b ensures f == e {
      ReadingsAre(b, f);
    }
  }

  function Filled(n: nat): (b: Bytes)
    ensures |b| == n && forall i :: 0 <= i < n ==> b[i] == 255
  {
    seq(n, _ => 255)
  }

  lemma OneReading(b: Bytes, k: nat, p: nat)
    requires |b| == 97 && forall i :: 0 <= i < 97 ==> (b[i] == 0 <==> i == 0 || i == 1 || i == 64)
    requires b[63] == 255 && Readable(b, k, p)
    ensures k == 1 && p == 64
  {
  }

  // ----- Validation against a context

  datatype Context = Context(sessionId: Bytes, wallet: Bytes, chainId: nat, digest: Bytes, version: Bytes)

  datatype Mismatch = SessionMismatch | WalletMismatch | ChainMismatch | DigestMismatch | VersionMismatch | InvalidRound

  function ValidateAgainst(e: TssEnvelope, c: Context): Result<(), Mismatch> {
    if e.sessionId != c.sessionId then Err(SessionMismatch)
    else if e.wallet != c.wallet then Err(WalletMismatch)
    else if e.chainId != c.chainId then Err(ChainMismatch)
    else if e.digest != c.digest then Err(DigestMismatch)
    else if e.protocolVersion != c.version then Err(VersionMismatch)
    else if e.round == 0 || e.round > 10 then Err(InvalidRound)
    else Ok(())
  }

  // An envelope is accepted exactly by the context it names, in rounds 1 to 10;
  // otherwise the first mismatch is reported.
  lemma ValidatedExactly(e: TssEnvelope, c: Context)
    ensures var r := ValidateAgainst(e, c);
            && (r == Err(SessionMismatch) <==> e.sessionId != c.sessionId)
            && (r == Err(WalletMismatch) <==> e.sessionId == c.sessionId && e.wallet != c.wallet)
            && (r == Err(ChainMismatch) <==>
                  e.sessionId == c.sessionId && e.wallet == c.wallet && e.chainId != c.chainId)
            && (r == Err(DigestMismatch) <==>
                  && e.sessionId == c.sessionId && e.wallet == c.wallet && e.chainId == c.chainId
                  && e.digest != c.digest)
            && (r == Err(VersionMismatch) <==>
                  && e.sessionId == c.sessionId && e.wallet == c.wallet && e.chainId == c.chainId
                  && e.digest == c.digest && e.protocolVersion != c.version)
            && (r == Ok(()) <==>
                  && c == Context(e.sessionId, e.wallet, e.chainId, e.digest, e.protocolVersion)
                  && 1 <= e.round <= 10)
  {
  }

  // An envelope is valid in at most one context.
  lemma OneContext(e: TssEnvelope, c: Context, d: Context)
    requires ValidateAgainst(e, c).Ok? && ValidateAgainst(e, d).Ok?
    ensures c == d && 1 <= e.round <= 10
  {
  }

  // Within one context only the message type needs to be zero-free for signed
  // bytes to determine the envelope: signatures cannot move between rounds,
  // senders, types or payloads.
  lemma ValidatedInjective(e: TssEnvelope, f: TssEnvelope, c: Context)
    requires Typed(e) && Typed(f) && SignBytes(e) == SignBytes(f)
    requires ValidateAgainst(e, c).Ok? && ValidateAgainst(f, c).Ok?
    ensures |e.messageType| == |f.messageType| || (ZeroFree(e.messageType) && ZeroFree(f.messageType)) ==> e == f
  {
    var re, rf := e.messageType + [0] + (e.digest + e.payload), f.messageType + [0] + (f.digest + f.payload);
    CancelPrefix(e.protocolVersion + [0], Middle(e) + re, f.protocolVersion + [0], Middle(f) + rf);
    CancelPrefix(Middle(e), re, Middle(f), rf);
    MiddleInjective(e, f);
    if |e.messageType| == |f.messageType| {
      CancelPrefix(e.messageType + [0], e.digest + e.payload, f.messageType + [0], f.digest + f.payload);
      CancelPrefix(e.messageType, [0], f.messageType, [0]);
      CancelPrefix(e.digest, e.payload, f.digest, f.payload);
    } else if ZeroFree(e.messageType) && ZeroFree(f.messageType) {
      RestInjective(e, f);
    }
  }

  // And exactly: an envelope valid in a context shares its bytes with another
  // one valid there if and only if the type can also be read to end at another
  // place, with the digest of the context behind it.
  lemma {:induction false} ValidatedAmbiguousExactly(e: TssEnvelope, c: Context)
    requires Typed(e) && ValidateAgainst(e, c).Ok?
    ensures var b := SignBytes(e);
            (exists f :: Typed(f) && f != e && SignBytes(f) == b && ValidateAgainst(f, c).Ok?) <==>
              exists p :: p != TypeEnd(e) && EndsTypeAt(b, VersionEnd(e), p, c.digest)
  {
    var b, k := SignBytes(e), VersionEnd(e);
    ReadingsAre(b, e);
    if f :| Typed(f) && f != e && SignBytes(f) == b && ValidateAgainst(f, c).Ok? {
      ReadingsAre(b, f);
      OtherTypeEnd(b, e, f, c);
    }
    if p :| p != TypeEnd(e) && EndsTypeAt(b, k, p, c.digest) {
      OtherReadingValid(b, k, TypeEnd(e), p, c);
      var f := Read(b, k, p);
    }
  }

  lemma OtherTypeEnd(b: Bytes, e: TssEnvelope, f: TssEnvelope, c: Context)
    requires ValidateAgainst(e, c).Ok? && ValidateAgainst(f, c).Ok? && f != e
    requires Readable(b, VersionEnd(e), TypeEnd(e)) && e == ReadAt(b, VersionEnd(e), TypeEnd(e))
    requires Readable(b, VersionEnd(f), TypeEnd(f)) && f == ReadAt(b, VersionEnd(f), TypeEnd(f))
    ensures TypeEnd(f) != TypeEnd(e) && EndsTypeAt(b, VersionEnd(e), TypeEnd(f), c.digest)
  {
  }

  lemma OtherReadingValid(b: Bytes, k: nat, p: nat, q: nat, c: Context)
    requires Readable(b, k, p) && ValidateAgainst(ReadAt(b, k, p), c).Ok? && EndsTypeAt(b, k, q, c.digest)
    ensures ValidateAgainst(ReadAt(b, k, q), c).Ok?
  {
  }

  predicate EndsTypeAt(b: Bytes, k: nat, p: nat, digest: Bytes) {
    Readable(b, k, p) && b[p + 1..p + 33] == digest
  }
}
