// Signing sessions: the session identifier each implementation derives from
// the fields it binds, and the one-shot status of a session. Keccak is a
// parameter; everything proved is about the bytes handed to it.
module Session {
  import opened Bytes
  import opened Hex
  import opened Outcome
  import opened TsBuffer

  // Strings are their UTF-8 bytes.
  datatype SessionBinding = SessionBinding(
    wallet: Bytes, chainId: int, nonce: int, digest: Bytes,
    policyVersion: int, signingProtocolVersion: Bytes, random: Bytes)

  // The field types of the Rust struct: fixed-size arrays and u64.
  predicate Typed(b: SessionBinding) {
    && Widths(b)
    && 0 <= b.chainId < TWO_64 && 0 <= b.nonce < TWO_64 && 0 <= b.policyVersion < TWO_64
  }

  function SessionPreimage(b: SessionBinding): Bytes {
    b.wallet + BE(b.chainId, 32) + BE(b.nonce, 32) + b.digest + BE(b.policyVersion, 32)
    + b.signingProtocolVersion + b.random
  }

  lemma WidenU64(v: nat)
    requires v < TWO_64
    ensures BE(v, 32) == Zeros(24) + BE(v, 8)
  {
    PowersOf256();
    BEWiden(v, 8, 24);
  }

  method WriteU256BE(out: Bytes, v: nat) returns (out': Bytes)
    requires v < TWO_64
    ensures out' == out + BE(v, 32)
  {
    WidenU64(v);
    out' := out + (Zeros(24) + BE(v, 8));
  }

  // The Rust derivation: append field after field, then hash.
  method DeriveSessionId(b: SessionBinding, keccak: Bytes -> Bytes) returns (id: Bytes)
    requires Typed(b)
    ensures id == keccak(SessionPreimage(b))
  {
    var preimage: Bytes := [];
    preimage := preimage + b.wallet;
    preimage := WriteU256BE(preimage, b.chainId);
    preimage := WriteU256BE(preimage, b.nonce);
    preimage := preimage + b.digest;
    preimage := WriteU256BE(preimage, b.policyVersion);
    preimage := preimage + b.signingProtocolVersion;
    preimage := preimage + b.random;
    assert preimage == SessionPreimage(b);
    id := keccak(preimage);
  }

  lemma U64Injective(v: int, w: int)
    requires 0 <= v < TWO_64 && 0 <= w < TWO_64 && BE(v, 32) == BE(w, 32)
    ensures v == w
  {
    WidenU64(v);
    WidenU64(w);
    CancelPrefix(Zeros(24), BE(v, 8), Zeros(24), BE(w, 8));
    PowersOf256();
    BEInjective(v, w, 8);
  }

  // Bindings with fields of these widths share a preimage exactly when they agree
  // on the bytes and, modulo 2^256, on the numbers.
  lemma SamePreimageExactly(a: SessionBinding, b: SessionBinding)
    requires Widths(a) && Widths(b)
    ensures SessionPreimage(a) == SessionPreimage(b) <==>
              && a.wallet == b.wallet && a.digest == b.digest && a.random == b.random
              && a.signingProtocolVersion == b.signingProtocolVersion
              && BE(a.chainId, 32) == BE(b.chainId, 32) && BE(a.nonce, 32) == BE(b.nonce, 32)
              && BE(a.policyVersion, 32) == BE(b.policyVersion, 32)
  {
    if SessionPreimage(a) == SessionPreimage(b) {
      var a5, b5 := a.wallet + BE(a.chainId, 32) + BE(a.nonce, 32) + a.digest + BE(a.policyVersion, 32),
                    b.wallet + BE(b.chainId, 32) + BE(b.nonce, 32) + b.digest + BE(b.policyVersion, 32);
      CancelSuffix(a5 + a.signingProtocolVersion, a.random, b5 + b.signingProtocolVersion, b.random);
      CancelPrefix(a5, a.signingProtocolVersion, b5, b.signingProtocolVersion);
      var a4, b4 := a.wallet + BE(a.chainId, 32) + BE(a.nonce, 32) + a.digest,
                    b.wallet + BE(b.chainId, 32) + BE(b.nonce, 32) + b.digest;
      CancelPrefix(a4, BE(a.policyVersion, 32), b4, BE(b.policyVersion, 32));
      var a3, b3 := a.wallet + BE(a.chainId, 32) + BE(a.nonce, 32), b.wallet + BE(b.chainId, 32) + BE(b.nonce, 32);
      CancelPrefix(a3, a.digest, b3, b.digest);
      CancelPrefix(a.wallet + BE(a.chainId, 32), BE(a.nonce, 32), b.wallet + BE(b.chainId, 32), BE(b.nonce, 32));
      CancelPrefix(a.wallet, BE(a.chainId, 32), b.wallet, BE(b.chainId, 32));
    }
  }

  predicate Widths(b: SessionBinding) {
    |b.wallet| == 20 && |b.digest| == 32 && |b.random| == 32
  }

  // No two bindings share a preimage, although the version string carries no
  // length: everything around it has a fixed width.
  lemma PreimageInjective(a: SessionBinding, b: SessionBinding)
    requires Typed(a) && Typed(b) && SessionPreimage(a) == SessionPreimage(b)
    ensures a == b
  {
    SamePreimageExactly(a, b);
    U64Injective(a.chainId, b.chainId);
    U64Injective(a.nonce, b.nonce);
    U64Injective(a.policyVersion, b.policyVersion);
  }

  // Where each field lies: the version string is what remains between the fixed
  // fields in front and the random bytes at the end.
  lemma PreimageLayout(b: SessionBinding)
    requires Widths(b)
    ensures var p := SessionPreimage(b);
            && |p| == 180 + |b.signingProtocolVersion|
            && p[..20] == b.wallet && p[20..52] == BE(b.chainId, 32) && p[52..84] == BE(b.nonce, 32)
            && p[84..116] == b.digest && p[116..148] == BE(b.policyVersion, 32)
            && p[148..|p| - 32] == b.signingProtocolVersion && p[|p| - 32..] == b.random
  {
    FieldsAt(SessionPreimage(b), b.wallet, BE(b.chainId, 32), BE(b.nonce, 32), b.digest, BE(b.policyVersion, 32),
             b.signingProtocolVersion, b.random);
  }

  lemma FieldsAt(p: Bytes, w: Bytes, c: Bytes, n: Bytes, d: Bytes, v: Bytes, s: Bytes, r: Bytes)
    requires |w| == 20 && |c| == |n| == |d| == |v| == |r| == 32 && p == w + c + n + d + v + s + r
    ensures |p| == 180 + |s| && p[..20] == w && p[20..52] == c && p[52..84] == n && p[84..116] == d && p[116..148] == v
    ensures p[148..148 + |s|] == s && p[148 + |s|..] == r
  {
  }

  // ----- The TypeScript derivation

  datatype TsSessionBinding = TsSessionBinding(
    wallet: string, chainId: int, nonce: int, digest: string,
    policyVersion: int, signingProtocolVersion: string, random: string)

  datatype TsField = Wallet | Digest | Random | SigningProtocolVersion

  predicate VersionChar(c: char) {
    'a' <= c <= 'z' || 'A' <= c <= 'Z' || '0' <= c <= '9' || c == '.' || c == '_' || c == '-'
  }

  lemma VersionChars(c: char)
    ensures VersionChar(c) <==>
              || c in "abcdefghijklmnopqrstuvwxyz" || c in "ABCDEFGHIJKLMNOPQRSTUVWXYZ"
              || c in "0123456789" || c in "._-"
  {
    InAlphabet(c, 'a', "abcdefghijklmnopqrstuvwxyz");
    InAlphabet(c, 'A', "ABCDEFGHIJKLMNOPQRSTUVWXYZ");
    InAlphabet(c, '0', "0123456789");
  }

  lemma InAlphabet(c: char, first: char, alphabet: string)
    requires forall i :: 0 <= i < |alphabet| ==> alphabet[i] as int == first as int + i
    ensures c in alphabet <==> first as int <= c as int < first as int + |alphabet|
  {
    if first as int <= c as int < first as int + |alphabet| {
      assert alphabet[c as int - first as int] == c;
    }
  }

  // name/variant, each non-empty, at most 64 characters together.
  predicate ValidVersion(s: string) {
    && |s| <= 64
    && exists k :: 0 < k < |s| - 1 && s[k] == '/'
               && forall i :: 0 <= i < |s| && i != k ==> VersionChar(s[i])
  }

  lemma ValidVersionExactly(s: string)
    ensures ValidVersion(s) <==>
              |s| <= 64 && exists name, variant :: SlashJoins(s, name, variant)
  {
    if ValidVersion(s) {
      var k :| 0 < k < |s| - 1 && s[k] == '/' && forall i :: 0 <= i < |s| && i != k ==> VersionChar(s[i]);
      assert SlashJoins(s, s[..k], s[k + 1..]);
    }
    if name, variant :| SlashJoins(s, name, variant) {
      assert s[|name|] == '/';
    }
  }

  predicate SlashJoins(s: string, name: string, variant: string) {
    && s == name + "/" + variant && name != "" && variant != ""
    && (forall c :: c in name ==> VersionChar(c)) && (forall c :: c in variant ==> VersionChar(c))
  }

  function FirstInvalid(t: TsSessionBinding): Option<TsField> {
    if !HexString(t.wallet, 40) then Some(Wallet)
    else if !HexString(t.digest, 64) then Some(Digest)
    else if !HexString(t.random, 64) then Some(Random)
    else if !ValidVersion(t.signingProtocolVersion) then Some(SigningProtocolVersion)
    else None
  }

  // The field reported is the first that is invalid.
  lemma FirstInvalidExactly(t: TsSessionBinding)
    ensures FirstInvalid(t) == Some(Wallet) <==> !HexString(t.wallet, 40)
    ensures FirstInvalid(t) == Some(Digest) <==> HexString(t.wallet, 40) && !HexString(t.digest, 64)
    ensures FirstInvalid(t) == Some(Random) <==>
              HexString(t.wallet, 40) && HexString(t.digest, 64) && !HexString(t.random, 64)
    ensures FirstInvalid(t).None? <==>
              && HexString(t.wallet, 40) && HexString(t.digest, 64) && HexString(t.random, 64)
              && ValidVersion(t.signingProtocolVersion)
  {
  }

  // The Rust binding a TypeScript binding denotes.
  function Meaning(t: TsSessionBinding): (b: SessionBinding)
    requires FirstInvalid(t).None?
    ensures Widths(b)
  {
    SessionBinding(Decode(StripPrefix(t.wallet)), t.chainId, t.nonce, Decode(StripPrefix(t.digest)),
                   t.policyVersion, Ascii(t.signingProtocolVersion), Decode(StripPrefix(t.random)))
  }

  // The denoted binding spells back as the TypeScript one, digits in lower case.
  lemma MeaningReadsBack(t: TsSessionBinding)
    requires FirstInvalid(t).None?
    ensures var b := Meaning(t);
            && BytesToHex(b.wallet) == Lower(t.wallet) && BytesToHex(b.digest) == Lower(t.digest)
            && BytesToHex(b.random) == Lower(t.random)
            && b.chainId == t.chainId && b.nonce == t.nonce && b.policyVersion == t.policyVersion
            && b.signingProtocolVersion == Ascii(t.signingProtocolVersion)
  {
    SpelledBack(t.wallet);
    SpelledBack(t.digest);
    SpelledBack(t.random);
  }

  // Validates, then collects the preimage through 32-byte scratch buffers.
  // For u64 fields the result is the Rust session id in hex.
  method TsDeriveSessionId(t: TsSessionBinding, keccak: Bytes -> Bytes) returns (r: Result<string, TsField>)
    ensures FirstInvalid(t).Some? ==> r == Err(FirstInvalid(t).value)
    ensures FirstInvalid(t).None? ==> r == Ok(BytesToHex(keccak(SessionPreimage(Meaning(t)))))
  {
    if !HexString(t.wallet, 40) { return Err(Wallet); }
    if !HexString(t.digest, 64) { return Err(Digest); }
    if !HexString(t.random, 64) { return Err(Random); }
    if !ValidVersion(t.signingProtocolVersion) { return Err(SigningProtocolVersion); }
    var preimage := TsPreimage(t);
    r := Ok(BytesToHex(keccak(preimage)));
  }

  // A number written into a fresh 32-byte buffer.
  method ScratchWord(v: int) returns (b: Bytes)
    ensures b == BE(v, 32)
  {
    var buf := new Byte[32](_ => 0);
    WriteUint256BE(buf, 0, v);
    b := buf[..];
  }

  method TsPreimage(t: TsSessionBinding) returns (out: Bytes)
    requires FirstInvalid(t).None?
    ensures out == SessionPreimage(Meaning(t))
  {
    var versionBytes := Ascii(t.signingProtocolVersion);
    var walletBytes := HexToBytes(t.wallet);
    var digestBytes := HexToBytes(t.digest);
    var randomBytes := HexToBytes(t.random);
    out := walletBytes.value[..];
    var digest, random := digestBytes.value[..], randomBytes.value[..];
    var chainBuf := ScratchWord(t.chainId);
    out := out + chainBuf;
    var nonceBuf := ScratchWord(t.nonce);
    out := out + nonceBuf;
    out := out + digest;
    var policyBuf := ScratchWord(t.policyVersion);
    out := out + policyBuf;
    out := out + versionBytes;
    out := out + random;
  }

  predicate SameNumbers(t: TsSessionBinding, u: TsSessionBinding, modulus: nat)
    requires 0 < modulus
  {
    && t.chainId % modulus == u.chainId % modulus && t.nonce % modulus == u.nonce % modulus
    && t.policyVersion % modulus == u.policyVersion % modulus
  }

  predicate SameText(t: TsSessionBinding, u: TsSessionBinding) {
    && Lower(t.wallet) == Lower(u.wallet) && Lower(t.digest) == Lower(u.digest) && Lower(t.random) == Lower(u.random)
    && t.signingProtocolVersion == u.signingProtocolVersion
  }

  // Numbers count modulo 2^256 and hex digits without their case: two valid
  // TypeScript bindings share a preimage exactly when they agree up to that.
  lemma TsSamePreimageExactly(t: TsSessionBinding, u: TsSessionBinding, modulus: nat)
    requires FirstInvalid(t).None? && FirstInvalid(u).None? && modulus == Pow256(32)
    ensures SessionPreimage(Meaning(t)) == SessionPreimage(Meaning(u)) <==>
              SameNumbers(t, u, modulus) && SameText(t, u)
  {
    SamePreimageExactly(Meaning(t), Meaning(u));
    NumbersExactly(t, u, 32, modulus);
    ValidParts(t);
    ValidParts(u);
    TextExactly(t, u);
  }

  lemma ValidParts(t: TsSessionBinding)
    requires FirstInvalid(t).None?
    ensures HexString(t.wallet, 40) && HexString(t.digest, 64) && HexString(t.random, 64)
    ensures IsAscii(t.signingProtocolVersion)
  {
  }

  lemma NumbersExactly(t: TsSessionBinding, u: TsSessionBinding, n: nat, modulus: nat)
    requires modulus == Pow256(n)
    ensures SameNumbers(t, u, modulus) <==>
              BE(t.chainId, n) == BE(u.chainId, n) && BE(t.nonce, n) == BE(u.nonce, n)
              && BE(t.policyVersion, n) == BE(u.policyVersion, n)
  {
    BEKeepsResidue(t.chainId, u.chainId, n);
    BEKeepsResidue(t.nonce, u.nonce, n);
    BEKeepsResidue(t.policyVersion, u.policyVersion, n);
  }

  lemma TextExactly(t: TsSessionBinding, u: TsSessionBinding)
    requires HexString(t.wallet, 40) && HexString(t.digest, 64) && HexString(t.random, 64)
    requires HexString(u.wallet, 40) && HexString(u.digest, 64) && HexString(u.random, 64)
    requires IsAscii(t.signingProtocolVersion) && IsAscii(u.signingProtocolVersion)
    ensures SameText(t, u) <==>
              && Decode(StripPrefix(t.wallet)) == Decode(StripPrefix(u.wallet))
              && Decode(StripPrefix(t.digest)) == Decode(StripPrefix(u.digest))
              && Decode(StripPrefix(t.random)) == Decode(StripPrefix(u.random))
              && Ascii(t.signingProtocolVersion) == Ascii(u.signingProtocolVersion)
  {
    SameHexExactly(t.wallet, u.wallet, 40);
    SameHexExactly(t.digest, u.digest, 64);
    SameHexExactly(t.random, u.random, 64);
    AsciiInjective(t.signingProtocolVersion, u.signingProtocolVersion);
  }

  predicate IsAscii(s: string) {
    forall i :: 0 <= i < |s| ==> s[i] < 128 as char
  }

  lemma SameHexExactly(s: string, t: string, n: nat)
    requires HexString(s, n) && HexString(t, n) && n % 2 == 0
    ensures Decode(StripPrefix(s)) == Decode(StripPrefix(t)) <==> Lower(s) == Lower(t)
  {
    SameBytesExactly(StripPrefix(s), StripPrefix(t));
    LowerOfTwo(s);
    LowerOfTwo(t);
    assert s[0] == '0' && s[1] == 'x' && t[0] == '0' && t[1] == 'x';
    if Lower(s) == Lower(t) {
      CancelPrefix([ToLower(s[0]), ToLower(s[1])], Lower(s[2..]), [ToLower(t[0]), ToLower(t[1])], Lower(t[2..]));
    }
  }

  lemma AsciiInjective(s: string, t: string)
    requires IsAscii(s) && IsAscii(t)
    ensures Ascii(s) == Ascii(t) <==> s == t
  {
    if Ascii(s) == Ascii(t) {
      assert |s| == |t|;
      forall i | 0 <= i < |s| ensures s[i] == t[i] {
        assert Ascii(s)[i] == Ascii(t)[i];
      }
    }
  }

  // ----- Session status

  datatype SigningSessionStatus = Started | Completed | Aborted | Failed

  datatype TransitionError = FromTerminal | BackToStarted

  function Transition(from: SigningSessionStatus, to: SigningSessionStatus)
    : Result<SigningSessionStatus, TransitionError>
  {
    if from != Started then Err(FromTerminal)
    else if to == Started then Err(BackToStarted)
    else Ok(to)
  }

  // A terminal status is left by nothing, and nothing goes back to the start.
  lemma TransitionExactly(from: SigningSessionStatus, to: SigningSessionStatus)
    ensures Transition(from, to) == Ok(to) <==> from == Started && to != Started
    ensures Transition(from, to) == Err(FromTerminal) <==> from == Completed || from == Aborted || from == Failed
    ensures Transition(from, to) == Err(BackToStarted) <==> from == Started && to == Started
  {
  }

  class SigningSession {
    const binding: SessionBinding
    var status: SigningSessionStatus

    constructor (binding: SessionBinding)
      ensures this.binding == binding && status == Started
    {
      this.binding := binding;
      status := Started;
    }

    method TransitionTo(to: SigningSessionStatus) returns (r: Result<(), TransitionError>)
      modifies this`status
      ensures match Transition(old(status), to)
              case Ok(s) => r == Ok(()) && status == s
              case Err(e) => r == Err(e) && status == old(status)
    {
      if status != Started { return Err(FromTerminal); }
      if to == Started { return Err(BackToStarted); }
      status := to;
      r := Ok(());
    }
  }

  // The status after a list of attempted transitions, failures ignored.
  function Attempts(from: SigningSessionStatus, tos: seq<SigningSessionStatus>): SigningSessionStatus
    decreases |tos|
  {
    if tos == [] then from
    else
      var next := match Transition(from, tos[0]) case Ok(s) => s case Err(_) => from;
      Attempts(next, tos[1..])
  }

  // Only the first attempt at a terminal status counts: an aborted or failed
  // session is never completed later.
  lemma {:induction false} FirstTerminalWins(tos: seq<SigningSessionStatus>, k: nat)
    requires k <= |tos| && (forall i :: 0 <= i < k ==> tos[i] == Started)
    requires k < |tos| ==> tos[k] != Started
    ensures Attempts(Started, tos) == if k < |tos| then tos[k] else Started
  {
    if k > 0 {
      FirstTerminalWins(tos[1..], k - 1);
    } else if tos != [] {
      TerminalFrozen(tos[0], tos[1..]);
    }
  }

  lemma {:induction false} TerminalFrozen(s: SigningSessionStatus, tos: seq<SigningSessionStatus>)
    requires s != Started
    ensures Attempts(s, tos) == s
  {
    if tos != [] { TerminalFrozen(s, tos[1..]); }
  }
}
