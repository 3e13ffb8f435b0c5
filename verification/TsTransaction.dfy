// KEYMESH_TX_V1 as the TypeScript package validates and encodes it: hex
// strings and unbounded integers in, one preallocated buffer filled by moving
// an offset. Proved to accept the same transactions as the Rust crate and to
// produce the same bytes.
module TsTransaction {
  import opened Bytes
  import opened Hex
  import opened Outcome
  import opened Transaction
  import opened TsBuffer

  datatype TsTx = TsTx(wallet: string, chainId: int, nonce: int, to: string, value: int, data: string, expiry: int)

  datatype TxField = WalletField | ToField | ChainIdField | NonceField | ValueField | ExpiryField | DataField

  // 0x and an even number of digits.
  predicate HexBytes(s: string) {
    "0x" <= s && |s| % 2 == 0 && AllHex(StripPrefix(s))
  }

  predicate InRange(v: int, max: int) {
    0 <= v <= max
  }

  // The guards in the order they throw; none when the transaction passes.
  function FirstInvalidField(tx: TsTx, now: Option<int>): Option<TxField> {
    if !HexString(tx.wallet, 40) then Some(WalletField)
    else if !HexString(tx.to, 40) then Some(ToField)
    else if !InRange(tx.chainId, TWO_64 - 1) then Some(ChainIdField)
    else if !InRange(tx.nonce, TWO_64 - 1) then Some(NonceField)
    else if !InRange(tx.value, TWO_128 - 1) then Some(ValueField)
    else if !InRange(tx.expiry, TWO_64 - 1) then Some(ExpiryField)
    else if tx.chainId == 0 then Some(ChainIdField)
    else if !HexBytes(tx.data) then Some(DataField)
    else if |tx.data| / 2 - 1 > MAX_DATA_BYTES then Some(DataField)
    else if now.Some? && tx.expiry < now.value then Some(ExpiryField)
    else None
  }

  predicate WellSpelled(tx: TsTx) {
    HexString(tx.wallet, 40) && HexString(tx.to, 40) && HexBytes(tx.data)
  }

  // The Rust transaction a well-spelled TypeScript one denotes.
  function MeaningOf(tx: TsTx): KeymeshTransaction
    requires WellSpelled(tx)
  {
    KeymeshTransaction(Decode(StripPrefix(tx.wallet)), tx.chainId, tx.nonce, Decode(StripPrefix(tx.to)),
                       tx.value, Decode(StripPrefix(tx.data)), tx.expiry)
  }

  // It spells back as the TypeScript one, digits in lower case.
  lemma MeaningReadsBack(tx: TsTx)
    requires WellSpelled(tx)
    ensures var m := MeaningOf(tx);
            && BytesToHex(m.wallet) == Lower(tx.wallet) && BytesToHex(m.to) == Lower(tx.to)
            && BytesToHex(m.data) == Lower(tx.data)
            && m.chainId == tx.chainId && m.nonce == tx.nonce && m.value == tx.value && m.expiry == tx.expiry
  {
    SpelledBack(tx.wallet);
    SpelledBack(tx.to);
    SpelledBack(tx.data);
  }

  // The TypeScript spelling of a Rust transaction.
  function Spell(tx: KeymeshTransaction): TsTx {
    TsTx(BytesToHex(tx.wallet), tx.chainId, tx.nonce, BytesToHex(tx.to), tx.value, BytesToHex(tx.data), tx.expiry)
  }

  // Both validators draw the same line, with and without a clock reading.
  lemma ValidatorsAgree(tx: TsTx, now: int)
    ensures FirstInvalidField(tx, None).None? <==> WellSpelled(tx) && Acceptable(MeaningOf(tx))
    ensures FirstInvalidField(tx, Some(now)).None? <==>
              WellSpelled(tx) && Typed(MeaningOf(tx)) && ValidateAt(MeaningOf(tx), now).Ok?
  {
  }

  // The field reported is the first, in the order of the checks, that breaks its
  // rule; the chain id and the expiry each have two rules.
  predicate Breaks(tx: TsTx, now: Option<int>, rule: nat) {
    match rule
    case 0 => !HexString(tx.wallet, 40)
    case 1 => !HexString(tx.to, 40)
    case 2 => tx.chainId < 0 || tx.chainId >= TWO_64
    case 3 => tx.nonce < 0 || tx.nonce >= TWO_64
    case 4 => tx.value < 0 || tx.value >= TWO_128
    case 5 => tx.expiry < 0 || tx.expiry >= TWO_64
    case 6 => tx.chainId == 0
    case 7 => !HexBytes(tx.data)
    case 8 => |tx.data| > 2 + 2 * 131_072
    case _ => now.Some? && now.value > tx.expiry
  }

  const RULE_FIELDS: seq<TxField> := [
    WalletField, ToField, ChainIdField, NonceField, ValueField, ExpiryField, ChainIdField, DataField, DataField,
    ExpiryField]

  lemma FirstInvalidFieldIs(tx: TsTx, now: Option<int>, rule: nat)
    requires rule < 10 && Breaks(tx, now, rule) && forall k :: 0 <= k < rule ==> !Breaks(tx, now, k)
    ensures FirstInvalidField(tx, now) == Some(RULE_FIELDS[rule])
  {
    EarlierKept(tx, now, rule, 0);
    EarlierKept(tx, now, rule, 1);
    EarlierKept(tx, now, rule, 2);
    EarlierKept(tx, now, rule, 3);
    EarlierKept(tx, now, rule, 4);
    EarlierKept(tx, now, rule, 5);
    EarlierKept(tx, now, rule, 6);
    EarlierKept(tx, now, rule, 7);
    EarlierKept(tx, now, rule, 8);
  }

  lemma EarlierKept(tx: TsTx, now: Option<int>, rule: nat, k: nat)
    requires forall j :: 0 <= j < rule ==> !Breaks(tx, now, j)
    ensures k < rule ==> !Breaks(tx, now, k)
  {
  }

  // Every Rust transaction has a spelling that denotes it.
  lemma SpellingDenotes(tx: KeymeshTransaction)
    requires Typed(tx)
    ensures WellSpelled(Spell(tx)) && MeaningOf(Spell(tx)) == tx
  {
    EncodeDecode(tx.wallet);
    EncodeDecode(tx.to);
    EncodeDecode(tx.data);
  }

  method EncodeCanonicalTransaction(tag: Bytes, tx: TsTx) returns (r: Result<array<Byte>, TxField>)
    requires |tag| == 32
    ensures FirstInvalidField(tx, None).Some? ==> r == Err(FirstInvalidField(tx, None).value)
    ensures FirstInvalidField(tx, None).None? ==>
              r.Ok? && fresh(r.value) && r.value[..] == Canonical(tag, MeaningOf(tx))
  {
    if FirstInvalidField(tx, None).Some? {
      return Err(FirstInvalidField(tx, None).value);
    }
    ghost var m := MeaningOf(tx);
    var data := HexToBytes(tx.data);
    var wallet := HexToBytes(tx.wallet);
    var to := HexToBytes(tx.to);
    var dataBytes := data.value[..];
    var out := new Byte[32 + 20 + 32 + 32 + 20 + 32 + 4 + |dataBytes| + 32](_ => 0);
    ghost var ws := Fill(out, tag, wallet.value[..], tx, to.value[..], dataBytes);
    FilledIsCanonical(tag, m);
    r := Ok(out);
  }

  lemma FilledIsCanonical(tag: Bytes, m: KeymeshTransaction)
    ensures tag + m.wallet + BE(m.chainId, 32) + BE(m.nonce, 32) + m.to + BE(m.value, 32)
            + BE(|m.data|, 4) + m.data + BE(m.expiry, 32)
         == Canonical(tag, m)
  {
  }

  // The offset arithmetic of the encoder: nine writes, each starting where the
  // one before it ended, the last one ending the buffer.
  method Fill(out: array<Byte>, tag: Bytes, wallet: Bytes, tx: TsTx, to: Bytes, data: Bytes)
    returns (ghost ws: seq<Write>)
    requires |tag| == 32 && |wallet| == |to| == 20 && |data| < TWO_32 && out.Length == 204 + |data|
    modifies out
    ensures |ws| == 9 && FillsUpTo(ws, out.Length) && out[..] == PatchAll(old(out[..]), ws)
    ensures out[..] == tag + wallet + BE(tx.chainId, 32) + BE(tx.nonce, 32) + to + BE(tx.value, 32)
                       + BE(|data|, 4) + data + BE(tx.expiry, 32)
  {
    ghost var was := out[..];
    var o: nat;
    o, ws := FillAddresses(out, tag, wallet, tx, to);
    ws := WriteNext(was, ws, o, BE(tx.value, 32));
    WriteUint256BE(out, o, tx.value);
    o := o + 32;
    ws := WriteNext(was, ws, o, BE(|data|, 4));
    WriteUint32BE(out, o, |data|);
    o := o + 4;
    ws := WriteNext(was, ws, o, data);
    Set(out, data, o);
    o := o + |data|;
    ws := WriteNext(was, ws, o, BE(tx.expiry, 32));
    WriteUint256BE(out, o, tx.expiry);
    FilledIsJoined(was, ws, out.Length);
    assert out[..][..out.Length] == out[..];
  }

  // The first five of them.
  method FillAddresses(out: array<Byte>, tag: Bytes, wallet: Bytes, tx: TsTx, to: Bytes)
    returns (o: nat, ghost ws: seq<Write>)
    requires |tag| == 32 && |wallet| == |to| == 20 && 136 <= out.Length
    modifies out
    ensures o == 136 && |ws| == 5 && FillsUpTo(ws, o) && out[..] == PatchAll(old(out[..]), ws)
    ensures Joined(ws) == tag + wallet + BE(tx.chainId, 32) + BE(tx.nonce, 32) + to
  {
    ghost var was := out[..];
    o := 0;
    ws := WriteNext(was, [], o, tag);
    Set(out, tag, o);
    o := o + 32;
    ws := WriteNext(was, ws, o, wallet);
    Set(out, wallet, o);
    o := o + 20;
    ws := WriteNext(was, ws, o, BE(tx.chainId, 32));
    WriteUint256BE(out, o, tx.chainId);
    o := o + 32;
    ws := WriteNext(was, ws, o, BE(tx.nonce, 32));
    WriteUint256BE(out, o, tx.nonce);
    o := o + 32;
    ws := WriteNext(was, ws, o, to);
    Set(out, to, o);
    o := o + 20;
    assert [] + tag == tag;
  }
}
