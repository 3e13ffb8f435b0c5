// KEYMESH_TX_V1: the canonical bytes of a signed transaction, as the Rust
// crate appends them, and the parser that undoes them. The 32-byte domain tag
// (the Keccak hash of the domain string) is a parameter.
module Transaction {
  import opened Bytes
  import opened Outcome
  import opened Serialization

  const MAX_DATA_BYTES: nat := 128 * 1024

  datatype KeymeshTransaction = KeymeshTransaction(
    wallet: Bytes, chainId: int, nonce: int, to: Bytes, value: int, data: Bytes, expiry: int)

  // The field types of the Rust struct.
  predicate Typed(tx: KeymeshTransaction) {
    && |tx.wallet| == 20 && |tx.to| == 20
    && 0 <= tx.chainId < TWO_64 && 0 <= tx.nonce < TWO_64 && 0 <= tx.expiry < TWO_64
    && 0 <= tx.value < TWO_128
  }

  datatype TxError = ChainIdZero | DataTooLong | Expired(expiry: int, now: int)

  function Validate(tx: KeymeshTransaction): Result<(), TxError> {
    if tx.chainId == 0 then Err(ChainIdZero)
    else if |tx.data| > MAX_DATA_BYTES then Err(DataTooLong)
    else Ok(())
  }

  // The expiry boundary is inclusive.
  function ValidateAt(tx: KeymeshTransaction, now: int): Result<(), TxError> {
    if Validate(tx).Err? then Validate(tx)
    else if now > tx.expiry then Err(Expired(tx.expiry, now))
    else Ok(())
  }

  predicate Acceptable(tx: KeymeshTransaction) {
    Typed(tx) && Validate(tx).Ok?
  }

  // The wire format.
  function Canonical(tag: Bytes, tx: KeymeshTransaction): Bytes {
    tag + (tx.wallet + (BE(tx.chainId, 32) + (BE(tx.nonce, 32) + (tx.to + (BE(tx.value, 32)
    + (BE(|tx.data|, 4) + (tx.data + BE(tx.expiry, 32))))))))
  }

  lemma CanonicalLength(tag: Bytes, tx: KeymeshTransaction)
    requires |tag| == 32 && Typed(tx)
    ensures |Canonical(tag, tx)| == 204 + |tx.data|
  {
  }

  // ----- The Rust encoder

  method Be256U64(v: nat) returns (out: Bytes)
    requires v < TWO_64
    ensures out == BE(v, 32)
  {
    PowersOf256();
    BEWiden(v, 8, 24);
    out := Zeros(32);
    out := out[..24] + BE(v, 8);
    assert out[..24] == Zeros(24);
  }

  method Be256U128(v: nat) returns (out: Bytes)
    requires v < TWO_128
    ensures out == BE(v, 32)
  {
    PowersOf256();
    BEWiden(v, 16, 16);
    out := Zeros(32);
    out := out[..16] + BE(v, 16);
    assert out[..16] == Zeros(16);
  }

  // The order in which the encoder appends.
  lemma AppendedIsCanonical(tag: Bytes, tx: KeymeshTransaction)
    requires |tx.data| < TWO_32
    ensures [] + tag + tx.wallet + BE(tx.chainId, 32) + BE(tx.nonce, 32) + tx.to + BE(tx.value, 32)
            + BlobBytes(tx.data) + BE(tx.expiry, 32)
         == Canonical(tag, tx)
  {
    assert |tx.data| % TWO_32 == |tx.data|;
    Nest(tag, tx.wallet, BE(tx.chainId, 32), BE(tx.nonce, 32), tx.to, BE(tx.value, 32), BE(|tx.data|, 4), tx.data,
         BE(tx.expiry, 32));
  }

  lemma Nest(t: Bytes, w: Bytes, c: Bytes, n: Bytes, o: Bytes, v: Bytes, l: Bytes, d: Bytes, x: Bytes)
    ensures [] + t + w + c + n + o + v + (l + d) + x == t + (w + (c + (n + (o + (v + (l + (d + x)))))))
  {
    assert [] + t == t;
    NestAddresses(t, w, c, n, o, v + (l + (d + x)));
    NestTail(t + w + c + n + o, v, l, d, x);
  }

  lemma NestAddresses(t: Bytes, w: Bytes, c: Bytes, n: Bytes, o: Bytes, rest: Bytes)
    ensures t + w + c + n + o + rest == t + (w + (c + (n + (o + rest))))
  {
  }

  lemma NestTail(head: Bytes, v: Bytes, l: Bytes, d: Bytes, x: Bytes)
    ensures head + v + (l + d) + x == head + (v + (l + (d + x)))
  {
  }

  method EncodeCanonical(tag: Bytes, tx: KeymeshTransaction) returns (r: Result<Bytes, TxError>)
    requires Typed(tx)
    ensures Validate(tx).Err? ==> r == Err(Validate(tx).error)
    ensures Validate(tx).Ok? ==> r == Ok(Canonical(tag, tx))
  {
    if Validate(tx).Err? {
      return Err(Validate(tx).error);
    }
    var enc := new Encoder();
    enc.WriteRaw(tag);
    enc.WriteRaw(tx.wallet);
    var field := Be256U64(tx.chainId);
    enc.WriteRaw(field);
    field := Be256U64(tx.nonce);
    enc.WriteRaw(field);
    enc.WriteRaw(tx.to);
    field := Be256U128(tx.value);
    enc.WriteRaw(field);
    enc.WriteBytes(tx.data);
    field := Be256U64(tx.expiry);
    enc.WriteRaw(field);
    AppendedIsCanonical(tag, tx);
    r := Ok(enc.buf);
  }

  // ----- The inverse parser

  datatype Taken = Taken(front: Bytes, rest: Bytes)

  function Take(b: Bytes, n: nat): (r: Option<Taken>)
    ensures r.Some? <==> n <= |b|
    ensures r.Some? ==> |r.value.front| == n && r.value.front + r.value.rest == b
  {
    if n <= |b| then Some(Taken(b[..n], b[n..])) else None
  }

  lemma TakeFront(front: Bytes, rest: Bytes)
    ensures Take(front + rest, |front|) == Some(Taken(front, rest))
  {
  }

  // Reads the nine parts in order, rejects trailing bytes and every value out
  // of bounds.
  function Parse(tag: Bytes, b: Bytes): Option<KeymeshTransaction> {
    match Take(b, 32) case None => None case Some(t0) =>
    match Take(t0.rest, 20) case None => None case Some(t1) =>
    match Take(t1.rest, 32) case None => None case Some(t2) =>
    match Take(t2.rest, 32) case None => None case Some(t3) =>
    match Take(t3.rest, 20) case None => None case Some(t4) =>
    match Take(t4.rest, 32) case None => None case Some(t5) =>
    match Take(t5.rest, 4) case None => None case Some(t6) =>
    match Take(t6.rest, Value(t6.front)) case None => None case Some(t7) =>
      var tx := KeymeshTransaction(t1.front, Value(t2.front), Value(t3.front), t4.front,
                                   Value(t5.front), t7.front, Value(t7.rest));
      if t0.front == tag && |t7.rest| == 32 && Acceptable(tx) then Some(tx) else None
  }

  lemma ParseCanonical(tag: Bytes, tx: KeymeshTransaction)
    requires |tag| == 32 && Acceptable(tx)
    ensures Parse(tag, Canonical(tag, tx)) == Some(tx)
  {
    NumbersRoundTrip(tx);
    var b8 := tx.data + BE(tx.expiry, 32);
    var b7 := BE(|tx.data|, 4) + b8;
    var b6 := BE(tx.value, 32) + b7;
    var b5 := tx.to + b6;
    var b4 := BE(tx.nonce, 32) + b5;
    var b3 := BE(tx.chainId, 32) + b4;
    var b2 := tx.wallet + b3;
    TakeFront(tag, b2);
    TakeFront(tx.wallet, b3);
    TakeFront(BE(tx.chainId, 32), b4);
    TakeFront(BE(tx.nonce, 32), b5);
    TakeFront(tx.to, b6);
    TakeFront(BE(tx.value, 32), b7);
    TakeFront(BE(|tx.data|, 4), b8);
    TakeFront(tx.data, BE(tx.expiry, 32));
  }

  lemma {:induction false} WideRoundTrip(v: nat, n: nat, wide: nat)
    requires v < Pow256(n) && n <= wide
    ensures Value(BE(v, wide)) == v
    decreases wide
  {
    if wide == n {
      ValueOfBE(v, n);
    } else {
      PowMonotone(n, wide);
      ValueOfBE(v, wide);
    }
  }

  lemma {:induction false} PowMonotone(n: nat, m: nat)
    requires n <= m
    ensures Pow256(n) <= Pow256(m)
    decreases m
  {
    if n < m { PowMonotone(n, m - 1); }
  }

  lemma NumbersRoundTrip(tx: KeymeshTransaction)
    requires Acceptable(tx)
    ensures Value(BE(tx.chainId, 32)) == tx.chainId
    ensures Value(BE(tx.nonce, 32)) == tx.nonce
    ensures Value(BE(tx.value, 32)) == tx.value
    ensures Value(BE(tx.expiry, 32)) == tx.expiry
    ensures Value(BE(|tx.data|, 4)) == |tx.data|
  {
    PowersOf256();
    WideRoundTrip(tx.chainId, 8, 32);
    WideRoundTrip(tx.nonce, 8, 32);
    WideRoundTrip(tx.value, 16, 32);
    WideRoundTrip(tx.expiry, 8, 32);
    WideRoundTrip(|tx.data|, 4, 4);
  }

  lemma {:induction false} CanonicalOfParsed(tag: Bytes, b: Bytes)
    requires Parse(tag, b).Some?
    ensures Canonical(tag, Parse(tag, b).value) == b && Acceptable(Parse(tag, b).value)
  {
    var t0 := Take(b, 32).value;
    var t1 := Take(t0.rest, 20).value;
    var t2 := Take(t1.rest, 32).value;
    var t3 := Take(t2.rest, 32).value;
    var t4 := Take(t3.rest, 20).value;
    var t5 := Take(t4.rest, 32).value;
    var t6 := Take(t5.rest, 4).value;
    var t7 := Take(t6.rest, Value(t6.front)).value;
    BEOfValue(t2.front);
    BEOfValue(t3.front);
    BEOfValue(t5.front);
    BEOfValue(t6.front);
    BEOfValue(t7.rest);
  }

  // The parser accepts exactly the canonical bytes of acceptable transactions.
  lemma {:induction false} ParseExactlyInverts(tag: Bytes, b: Bytes, tx: KeymeshTransaction)
    requires |tag| == 32
    ensures Parse(tag, b) == Some(tx) <==> Acceptable(tx) && b == Canonical(tag, tx)
  {
    if Parse(tag, b) == Some(tx) { CanonicalOfParsed(tag, b); }
    if Acceptable(tx) && b == Canonical(tag, tx) { ParseCanonical(tag, tx); }
  }

  // One byte string per transaction: equal canonical bytes, equal in all seven
  // fields.
  lemma {:induction false} CanonicalInjective(tag: Bytes, tx: KeymeshTransaction, tx': KeymeshTransaction)
    requires |tag| == 32 && Acceptable(tx) && Acceptable(tx') && Canonical(tag, tx) == Canonical(tag, tx')
    ensures tx == tx'
  {
    ParseExactlyInverts(tag, Canonical(tag, tx), tx);
    ParseExactlyInverts(tag, Canonical(tag, tx), tx');
  }

  // Nor is one transaction's encoding a proper prefix of another's.
  lemma CanonicalPrefixFree(tag: Bytes, tx: KeymeshTransaction, tx': KeymeshTransaction, tail: Bytes)
    requires |tag| == 32 && Acceptable(tx) && Acceptable(tx')
    requires Canonical(tag, tx) + tail == Canonical(tag, tx')
    ensures tail == [] && tx == tx'
  {
    NumbersRoundTrip(tx);
    NumbersRoundTrip(tx');
    var b, b' := Canonical(tag, tx), Canonical(tag, tx');
    LengthField(tag, tx);
    LengthField(tag, tx');
    assert b'[168..172] == b[168..172];
    CanonicalLength(tag, tx);
    CanonicalLength(tag, tx');
    assert tail == [];
    assert b + [] == b;
    CanonicalInjective(tag, tx, tx');
  }

  // Where each field lies.
  lemma CanonicalLayout(tag: Bytes, tx: KeymeshTransaction)
    requires |tag| == 32 && Typed(tx)
    ensures var b, n := Canonical(tag, tx), 172 + |tx.data|;
            && |b| == n + 32 && b[..32] == tag && b[32..52] == tx.wallet && b[52..84] == BE(tx.chainId, 32)
            && b[84..116] == BE(tx.nonce, 32) && b[116..136] == tx.to && b[136..168] == BE(tx.value, 32)
            && b[168..172] == BE(|tx.data|, 4) && b[172..n] == tx.data && b[n..] == BE(tx.expiry, 32)
  {
    FieldsAt(Canonical(tag, tx), tag, tx.wallet, BE(tx.chainId, 32), BE(tx.nonce, 32), tx.to, BE(tx.value, 32),
             BE(|tx.data|, 4), tx.data, BE(tx.expiry, 32));
  }

  lemma FieldsAt(b: Bytes, t: Bytes, w: Bytes, c: Bytes, n: Bytes, o: Bytes, v: Bytes, l: Bytes, d: Bytes, x: Bytes)
    requires |t| == |c| == |n| == |v| == |x| == 32 && |w| == |o| == 20 && |l| == 4
    requires b == t + (w + (c + (n + (o + (v + (l + (d + x)))))))
    ensures |b| == 204 + |d| && b[..32] == t && b[32..52] == w && b[52..84] == c && b[84..116] == n && b[116..136] == o
    ensures b[136..168] == v && b[168..172] == l && b[172..172 + |d|] == d && b[172 + |d|..] == x
  {
  }

  // Which check refuses a transaction, the boundaries included: 131072 bytes of
  // data pass, and so does the second of expiry itself.
  lemma ValidationExactly(tx: KeymeshTransaction, now: int)
    ensures Validate(tx) == Err(ChainIdZero) <==> tx.chainId == 0
    ensures Validate(tx) == Err(DataTooLong) <==> tx.chainId != 0 && |tx.data| > 131_072
    ensures Validate(tx) == Ok(()) <==> tx.chainId != 0 && |tx.data| <= 131_072
    ensures ValidateAt(tx, now) == Err(Expired(tx.expiry, now)) <==>
              tx.chainId != 0 && |tx.data| <= 131_072 && now > tx.expiry
    ensures ValidateAt(tx, now) == Ok(()) <==> tx.chainId != 0 && |tx.data| <= 131_072 && now <= tx.expiry
    ensures Validate(tx).Err? ==> ValidateAt(tx, now) == Validate(tx)
  {
  }

  // The length prefix sits at a fixed offset.
  lemma LengthField(tag: Bytes, tx: KeymeshTransaction)
    requires |tag| == 32 && Acceptable(tx)
    ensures |Canonical(tag, tx)| >= 172 && Canonical(tag, tx)[168..172] == BE(|tx.data|, 4)
  {
  }
}
