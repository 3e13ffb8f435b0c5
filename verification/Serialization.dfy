// The deterministic binary encoder and its bounds-checked decoder, and the
// proof that on any schema they are exact inverses.
module Serialization {
  import opened Bytes
  import opened Outcome

  // ----- Fields and their encodings

  datatype Field = U8(v: Byte) | U64(n: nat) | Blob(b: Bytes)

  datatype Kind = KindU8 | KindU64 | KindBlob

  function KindOf(f: Field): Kind {
    match f
    case U8(_) => KindU8
    case U64(_) => KindU64
    case Blob(_) => KindBlob
  }

  // The length prefix is the length cast to u32: longer strings wrap.
  function BlobBytes(b: Bytes): Bytes {
    BE(|b| % TWO_32, 4) + b
  }

  function FieldBytes(f: Field): Bytes {
    match f
    case U8(v) => [v]
    case U64(n) => BE(n, 8)
    case Blob(b) => BlobBytes(b)
  }

  function FieldsBytes(fs: seq<Field>): Bytes {
    if fs == [] then [] else FieldBytes(fs[0]) + FieldsBytes(fs[1..])
  }

  // Byte for byte: numbers most significant byte first, strings behind their
  // length, which wraps at 2^32.
  lemma FieldLayout(v: Byte, n: nat, b: Bytes, i: nat)
    requires i < 8
    ensures FieldBytes(U8(v)) == [v]
    ensures |FieldBytes(U64(n))| == 8 && FieldBytes(U64(n))[i] == (n / Pow256(7 - i)) % 256
    ensures |FieldBytes(Blob(b))| == 4 + |b| && FieldBytes(Blob(b))[4..] == b
    ensures i < 4 ==> FieldBytes(Blob(b))[i] == ((|b| % TWO_32) / Pow256(3 - i)) % 256
  {
    ByteAt(n, 8, i);
    if i < 4 {
      ByteAt(|b| % TWO_32, 4, i);
    }
  }

  lemma ByteAt(v: int, n: nat, i: nat)
    requires i < n
    ensures BE(v, n)[i] == (v / Pow256(n - 1 - i)) % 256
  {
    BEAt(v, n, n - 1 - i);
  }

  predicate Fits(f: Field) {
    match f
    case U8(_) => true
    case U64(n) => n < TWO_64
    case Blob(b) => |b| < TWO_32
  }

  class Encoder {
    var buf: Bytes

    constructor ()
      ensures buf == []
    {
      buf := [];
    }

    method WriteU8(v: Byte)
      modifies this
      ensures buf == old(buf) + FieldBytes(U8(v))
    {
      buf := buf + [v];
    }

    method WriteU64(v: nat)
      requires v < TWO_64
      modifies this
      ensures buf == old(buf) + FieldBytes(U64(v))
    {
      buf := buf + BE(v, 8);
    }

    method WriteRaw(bytes: Bytes)
      modifies this
      ensures buf == old(buf) + bytes
    {
      buf := buf + bytes;
    }

    method WriteBytes(bytes: Bytes)
      modifies this
      ensures buf == old(buf) + FieldBytes(Blob(bytes))
    {
      buf := buf + BE(|bytes| % TWO_32, 4);
      buf := buf + bytes;
    }
  }

  // ----- Decoding

  datatype DecodeError = UnexpectedEnd | LengthExceedsBuffer | TrailingBytes(count: nat)

  datatype Parsed = Parsed(field: Field, rest: Bytes)

  // One field read from the front of b.
  function ParseField(k: Kind, b: Bytes): Option<Parsed> {
    match k
    case KindU8 => if |b| < 1 then None else Some(Parsed(U8(b[0]), b[1..]))
    case KindU64 => if |b| < 8 then None else Some(Parsed(U64(Value(b[..8])), b[8..]))
    case KindBlob =>
      if |b| < 4 then None
      else
        var len := Value(b[..4]);
        if len > |b| - 4 then None else Some(Parsed(Blob(b[4..][..len]), b[4..][len..]))
  }

  // Every field of a schema in turn, then `finish`.
  function Decode(ks: seq<Kind>, b: Bytes): Option<seq<Field>>
    decreases |ks|
  {
    if ks == [] then (if b == [] then Some([]) else None)
    else match ParseField(ks[0], b)
      case None => None
      case Some(p) =>
        Prepend([p.field], Decode(ks[1..], p.rest))
  }

  class Decoder {
    const buf: Bytes
    var pos: nat

    predicate Valid()
      reads this
    {
      pos <= |buf|
    }

    function Rest(): Bytes
      requires Valid()
      reads this
    {
      buf[pos..]
    }

    constructor (buf: Bytes)
      ensures Valid() && this.buf == buf && Rest() == buf
    {
      this.buf := buf;
      pos := 0;
    }

    function Remaining(): nat
      requires Valid()
      reads this
    {
      |buf| - pos
    }

    method Finish() returns (r: Result<(), DecodeError>)
      requires Valid()
      ensures r == if Rest() == [] then Ok(()) else Err(TrailingBytes(|Rest()|))
    {
      if Remaining() != 0 {
        return Err(TrailingBytes(Remaining()));
      }
      r := Ok(());
    }

    method ReadU8() returns (r: Result<Byte, DecodeError>)
      requires Valid()
      modifies this
      ensures Valid()
      ensures match ParseField(KindU8, old(Rest()))
              case Some(p) => r.Ok? && p.field == U8(r.value) && Rest() == p.rest
              case None => r == Err(UnexpectedEnd) && pos == old(pos)
    {
      if Remaining() < 1 {
        return Err(UnexpectedEnd);
      }
      var v := buf[pos];
      pos := pos + 1;
      r := Ok(v);
    }

    method ReadU64() returns (r: Result<nat, DecodeError>)
      requires Valid()
      modifies this
      ensures Valid()
      ensures match ParseField(KindU64, old(Rest()))
              case Some(p) => r.Ok? && p.field == U64(r.value) && Rest() == p.rest
              case None => r == Err(UnexpectedEnd) && pos == old(pos)
    {
      if Remaining() < 8 {
        return Err(UnexpectedEnd);
      }
      var arr := buf[pos..pos + 8];
      assert arr == Rest()[..8];
      pos := pos + 8;
      r := Ok(Value(arr));
    }

    method ReadU32() returns (r: Result<nat, DecodeError>)
      requires Valid()
      modifies this
      ensures Valid()
      ensures if |old(Rest())| < 4 then r == Err(UnexpectedEnd) && pos == old(pos)
              else r == Ok(Value(old(Rest())[..4])) && Rest() == old(Rest())[4..]
    {
      if Remaining() < 4 {
        return Err(UnexpectedEnd);
      }
      var arr := buf[pos..pos + 4];
      assert arr == Rest()[..4];
      pos := pos + 4;
      r := Ok(Value(arr));
    }

    // An oversized declared length fails after the length itself was consumed.
    method ReadBytes() returns (r: Result<Bytes, DecodeError>)
      requires Valid()
      modifies this
      ensures Valid()
      ensures match ParseField(KindBlob, old(Rest()))
              case Some(p) => r.Ok? && p.field == Blob(r.value) && Rest() == p.rest
              case None =>
                if |old(Rest())| < 4 then r == Err(UnexpectedEnd) && pos == old(pos)
                else r == Err(LengthExceedsBuffer) && pos == old(pos) + 4
    {
      ghost var was := Rest();
      var len := ReadU32();
      if len.Err? {
        return Err(len.error);
      }
      if len.value > Remaining() {
        return Err(LengthExceedsBuffer);
      }
      var out := buf[pos..pos + len.value];
      assert out == was[4..][..len.value];
      pos := pos + len.value;
      assert Rest() == was[4..][len.value..];
      r := Ok(out);
    }
  }

  // A client writing a list of fields.
  method WriteFields(fs: seq<Field>) returns (b: Bytes)
    requires forall f :: f in fs ==> Fits(f)
    ensures b == FieldsBytes(fs)
  {
    var enc := new Encoder();
    assert fs[0..] == fs;
    for i := 0 to |fs|
      invariant enc.buf + FieldsBytes(fs[i..]) == FieldsBytes(fs)
    {
      ghost var was := enc.buf;
      assert fs[i..][1..] == fs[i + 1..];
      assert (was + FieldBytes(fs[i])) + FieldsBytes(fs[i + 1..]) == was + FieldsBytes(fs[i..]);
      WriteField(enc, fs[i]);
    }
    b := enc.buf;
  }

  method WriteField(enc: Encoder, f: Field)
    requires Fits(f)
    modifies enc
    ensures enc.buf == old(enc.buf) + FieldBytes(f)
  {
    match f {
      case U8(v) => enc.WriteU8(v);
      case U64(n) => enc.WriteU64(n);
      case Blob(s) => enc.WriteBytes(s);
    }
  }

  // A client reading by a schema and then finishing.
  method ReadFields(ks: seq<Kind>, b: Bytes) returns (r: Option<seq<Field>>)
    ensures r == Decode(ks, b)
  {
    var dec := new Decoder(b);
    var fs: seq<Field> := [];
    assert ks[0..] == ks;
    PrependNothing(Decode(ks, b));
    for i := 0 to |ks|
      invariant dec.Valid()
      invariant Decode(ks, b) == Prepend(fs, Decode(ks[i..], dec.Rest()))
    {
      DecodeNext(ks, i, dec.Rest());
      var f := ReadField(dec, ks[i]);
      if f.None? { return None; }
      PrependOne(fs, f.value, Decode(ks[i + 1..], dec.Rest()));
      fs := fs + [f.value];
    }
    var done := dec.Finish();
    if done.Err? { return None; }
    assert fs + [] == fs;
    r := Some(fs);
  }

  lemma DecodeNext(ks: seq<Kind>, i: nat, b: Bytes)
    requires i < |ks|
    ensures Decode(ks[i..], b) == match ParseField(ks[i], b)
                                  case None => None
                                  case Some(p) => Prepend([p.field], Decode(ks[i + 1..], p.rest))
  {
    assert ks[i..][1..] == ks[i + 1..];
  }

  function Prepend(fs: seq<Field>, r: Option<seq<Field>>): Option<seq<Field>> {
    match r
    case None => None
    case Some(t) => Some(fs + t)
  }

  lemma PrependOne(fs: seq<Field>, f: Field, r: Option<seq<Field>>)
    ensures Prepend(fs, Prepend([f], r)) == Prepend(fs + [f], r)
  {
    if r.Some? { assert fs + ([f] + r.value) == (fs + [f]) + r.value; }
  }

  lemma PrependNothing(r: Option<seq<Field>>)
    ensures Prepend([], r) == r
  {
    if r.Some? { assert [] + r.value == r.value; }
  }

  method ReadField(dec: Decoder, k: Kind) returns (r: Option<Field>)
    requires dec.Valid()
    modifies dec
    ensures dec.Valid()
    ensures match ParseField(k, old(dec.Rest()))
            case None => r == None
            case Some(p) => r == Some(p.field) && dec.Rest() == p.rest
  {
    match k {
      case KindU8 =>
        var v := dec.ReadU8();
        r := if v.Ok? then Some(U8(v.value)) else None;
      case KindU64 =>
        var v := dec.ReadU64();
        r := if v.Ok? then Some(U64(v.value)) else None;
      case KindBlob =>
        var v := dec.ReadBytes();
        r := if v.Ok? then Some(Blob(v.value)) else None;
    }
  }

  // ----- Encoder and decoder are inverses

  lemma ParseEncoded(f: Field, rest: Bytes)
    requires Fits(f)
    ensures ParseField(KindOf(f), FieldBytes(f) + rest) == Some(Parsed(f, rest))
  {
    var b := FieldBytes(f) + rest;
    PowersOf256();
    match f {
      case U8(v) => assert b[1..] == rest;
      case U64(n) =>
        assert b[..8] == BE(n, 8) && b[8..] == rest;
        ValueOfBE(n, 8);
      case Blob(s) => ParseEncodedBlob(s, rest);
    }
  }

  lemma ParseEncodedBlob(s: Bytes, rest: Bytes)
    requires |s| < TWO_32
    ensures ParseField(KindBlob, BlobBytes(s) + rest) == Some(Parsed(Blob(s), rest))
  {
    LengthReadBack(|s|, 4);
    assert |s| % TWO_32 == |s|;
    PrefixedApart(BE(|s|, 4), s, rest);
  }

  lemma LengthReadBack(v: nat, n: nat)
    requires v < TWO_32 && n == 4
    ensures Value(BE(v, n)) == v
  {
    PowersOf256();
    ValueOfBE(v, n);
  }

  lemma PrefixedApart(prefix: Bytes, s: Bytes, rest: Bytes)
    ensures var b, n := (prefix + s) + rest, |prefix|;
            b[..n] == prefix && b[n..][..|s|] == s && b[n..][|s|..] == rest
  {
    assert ((prefix + s) + rest)[|prefix|..] == s + rest;
  }

  lemma EncodeParsed(k: Kind, b: Bytes)
    ensures match ParseField(k, b)
            case None => true
            case Some(p) => KindOf(p.field) == k && Fits(p.field) && FieldBytes(p.field) + p.rest == b
  {
    PowersOf256();
    match k {
      case KindU8 =>
      case KindU64 =>
        if |b| >= 8 {
          ValueBound(b[..8]);
          BEOfValue(b[..8]);
          assert b[..8] + b[8..] == b;
        }
      case KindBlob => EncodeParsedBlob(b);
    }
  }

  lemma EncodeParsedBlob(b: Bytes)
    ensures match ParseField(KindBlob, b)
            case None => true
            case Some(p) => p.field.Blob? && Fits(p.field) && FieldBytes(p.field) + p.rest == b
  {
    if |b| >= 4 {
      LengthPrefix(b[..4]);
      var len := Value(b[..4]);
      if len <= |b| - 4 {
        SplitAt(b[..4], b[4..], len);
        assert b[..4] + b[4..] == b;
      }
    }
  }

  lemma LengthPrefix(prefix: Bytes)
    requires |prefix| == 4
    ensures Value(prefix) < TWO_32 && BE(Value(prefix) % TWO_32, 4) == prefix
  {
    PowersOf256();
    ReadBack(prefix, 4, TWO_32);
    assert Value(prefix) % TWO_32 == Value(prefix);
  }

  lemma ReadBack(b: Bytes, n: nat, p: nat)
    requires |b| == n && p == Pow256(n)
    ensures Value(b) < p && BE(Value(b), n) == b
  {
    ValueBound(b);
    BEOfValue(b);
  }

  lemma SplitAt(prefix: Bytes, body: Bytes, len: nat)
    requires len <= |body|
    ensures (prefix + body[..len]) + body[len..] == prefix + body
    ensures |body[..len]| == len
  {
  }

  ghost predicate Matches(fs: seq<Field>, ks: seq<Kind>) {
    |fs| == |ks| && forall i :: 0 <= i < |fs| ==> KindOf(fs[i]) == ks[i] && Fits(fs[i])
  }

  lemma {:induction false} DecodeEncoded(fs: seq<Field>, ks: seq<Kind>)
    requires Matches(fs, ks)
    ensures Decode(ks, FieldsBytes(fs)) == Some(fs)
    decreases |ks|
  {
    if ks != [] {
      ParseEncoded(fs[0], FieldsBytes(fs[1..]));
      DecodeEncoded(fs[1..], ks[1..]);
      assert [fs[0]] + fs[1..] == fs;
    }
  }

  lemma {:induction false} EncodeDecoded(ks: seq<Kind>, b: Bytes)
    requires Decode(ks, b).Some?
    ensures Matches(Decode(ks, b).value, ks) && FieldsBytes(Decode(ks, b).value) == b
    decreases |ks|
  {
    if ks != [] {
      EncodeParsed(ks[0], b);
      var p := ParseField(ks[0], b).value;
      EncodeDecoded(ks[1..], p.rest);
      var fs, t := Decode(ks, b).value, Decode(ks[1..], p.rest).value;
      assert fs[0] == p.field && fs[1..] == t;
      assert forall i :: 1 <= i < |fs| ==> fs[i] == t[i - 1] && ks[i] == ks[1..][i - 1];
    }
  }

  // Reading by a schema succeeds with fields fs on exactly one byte string:
  // the encoding of fs. Both directions: what was written is read back and
  // finishes, and whatever is accepted re-encodes to the same bytes.
  lemma DecodeExactlyInverts(ks: seq<Kind>, b: Bytes, fs: seq<Field>)
    ensures Decode(ks, b) == Some(fs) <==> Matches(fs, ks) && FieldsBytes(fs) == b
  {
    if Decode(ks, b) == Some(fs) { EncodeDecoded(ks, b); }
    if Matches(fs, ks) && FieldsBytes(fs) == b { DecodeEncoded(fs, ks); }
  }

  // A byte string survives the round trip exactly when its length fits u32.
  lemma BlobRoundTripExactlyWhenShort(b: Bytes)
    ensures Decode([KindBlob], FieldsBytes([Blob(b)])) == Some([Blob(b)]) <==> |b| < TWO_32
  {
    DecodeExactlyInverts([KindBlob], FieldsBytes([Blob(b)]), [Blob(b)]);
    assert Matches([Blob(b)], [KindBlob]) <==> Fits([Blob(b)][0]);
  }

  // On one schema, equal bytes are equal fields.
  lemma EncodedInjective(ks: seq<Kind>, fs: seq<Field>, gs: seq<Field>)
    requires Matches(fs, ks) && Matches(gs, ks) && FieldsBytes(fs) == FieldsBytes(gs)
    ensures fs == gs
  {
    DecodeExactlyInverts(ks, FieldsBytes(fs), fs);
    DecodeExactlyInverts(ks, FieldsBytes(fs), gs);
  }

  lemma {:induction false} FieldsSnoc(fs: seq<Field>, f: Field)
    ensures FieldsBytes(fs + [f]) == FieldsBytes(fs) + FieldBytes(f)
  {
    if fs == [] {
      assert ([] + [f])[1..] == fs;
      assert FieldBytes(f) + [] == FieldBytes(f) == [] + FieldBytes(f);
    } else {
      FieldsSnoc(fs[1..], f);
      assert (fs + [f])[1..] == fs[1..] + [f];
      Associate(FieldBytes(fs[0]), FieldsBytes(fs[1..]), FieldBytes(f));
    }
  }
}
