// Writes into a fixed-size byte buffer at an offset, as the TypeScript
// encoders make them.
module TsBuffer {
  import opened Bytes

  // The buffer with `b` written at `offset`.
  function Patched(buf: Bytes, offset: nat, b: Bytes): (r: Bytes)
    requires offset + |b| <= |buf|
    ensures |r| == |buf|
  {
    buf[..offset] + b + buf[offset + |b|..]
  }

  // A buffer that holds b at the offset and is otherwise as before.
  lemma PatchedIs(was: Bytes, now: Bytes, offset: nat, b: Bytes)
    requires offset + |b| <= |was| == |now|
    requires forall k :: 0 <= k < |b| ==> now[offset + k] == b[k]
    requires forall k :: 0 <= k < |was| && !(offset <= k < offset + |b|) ==> now[k] == was[k]
    ensures now == Patched(was, offset, b)
  {
    var p := Patched(was, offset, b);
    forall k | 0 <= k < |was| ensures now[k] == p[k] {
      if offset <= k < offset + |b| {
        assert p[k] == b[k - offset] == now[offset + (k - offset)];
      }
    }
  }

  // n bytes counted from the right, each a shift and a mask.
  lemma ShiftedBytes(value: int, b: Bytes, n: nat)
    requires |b| == n && forall k :: 0 <= k < n ==> b[n - 1 - k] == (value / Pow256(k)) % 256
    ensures b == BE(value, n)
  {
    forall k | 0 <= k < n ensures b[k] == BE(value, n)[k] {
      BEAt(value, n, n - 1 - k);
      assert b[n - 1 - (n - 1 - k)] == b[k];
    }
  }

  // One shift and mask per byte; shifting right is floor division, so a
  // negative or oversized value is written modulo 2^256.
  method WriteUint256BE(target: array<Byte>, offset: nat, value: int)
    requires offset + 32 <= target.Length
    modifies target
    ensures target[..] == Patched(old(target[..]), offset, BE(value, 32))
  {
    ghost var was := target[..];
    for i := 0 to 32
      invariant forall k :: 0 <= k < i ==> target[offset + 31 - k] == (value / Pow256(k)) % 256
      invariant forall k :: 0 <= k < target.Length && !(offset + 32 - i <= k < offset + 32) ==> target[k] == was[k]
    {
      target[offset + 31 - i] := (value / Pow256(i)) % 256;
    }
    ghost var written := target[offset..offset + 32];
    ShiftedBytes(value, written, 32);
    PatchedIs(was, target[..], offset, written);
  }

  lemma FourBytes(value: nat)
    ensures BE(value, 4)
         == [(value / 0x100_0000) % 256, (value / 0x1_0000) % 256, (value / 0x100) % 256, value % 256]
  {
    assert Pow256(0) == 1 && Pow256(1) == 0x100 && Pow256(2) == 0x1_0000 && Pow256(3) == 0x100_0000;
    BEAt(value, 4, 0);
    BEAt(value, 4, 1);
    BEAt(value, 4, 2);
    BEAt(value, 4, 3);
  }

  // The four explicit shifts of a 32-bit length.
  method WriteUint32BE(target: array<Byte>, offset: nat, value: nat)
    requires offset + 4 <= target.Length && value < TWO_32
    modifies target
    ensures target[..] == Patched(old(target[..]), offset, BE(value, 4))
  {
    ghost var was := target[..];
    target[offset] := (value / 0x100_0000) % 256;
    target[offset + 1] := (value / 0x1_0000) % 256;
    target[offset + 2] := (value / 0x100) % 256;
    target[offset + 3] := value % 256;
    FourBytes(value);
    PatchedIs(was, target[..], offset, BE(value, 4));
  }

  // Uint8Array.prototype.set.
  method Set(target: array<Byte>, b: Bytes, offset: nat)
    requires offset + |b| <= target.Length
    modifies target
    ensures target[..] == Patched(old(target[..]), offset, b)
  {
    ghost var was := target[..];
    for i := 0 to |b|
      invariant forall k :: 0 <= k < i ==> target[offset + k] == b[k]
      invariant forall k :: 0 <= k < target.Length && !(offset <= k < offset + i) ==> target[k] == was[k]
    {
      target[offset + i] := b[i];
    }
    PatchedIs(was, target[..], offset, b);
  }

  // ----- Several writes

  datatype Write = Write(offset: nat, bytes: Bytes)

  // Each write starts where the one before it ended, the first at 0, and the
  // last ends at n.
  predicate FillsUpTo(ws: seq<Write>, n: nat)
    ensures FillsUpTo(ws, n) ==> forall i :: 0 <= i < |ws| ==> ws[i].offset + |ws[i].bytes| <= n
  {
    if ws == [] then n == 0
    else
      var last := ws[|ws| - 1];
      FillsUpTo(ws[..|ws| - 1], last.offset) && n == last.offset + |last.bytes|
  }

  // The buffer after all the writes, in order.
  function PatchAll(buf: Bytes, ws: seq<Write>): (r: Bytes)
    requires forall i :: 0 <= i < |ws| ==> ws[i].offset + |ws[i].bytes| <= |buf|
    ensures |r| == |buf|
  {
    if ws == [] then buf
    else
      var last := ws[|ws| - 1];
      Patched(PatchAll(buf, ws[..|ws| - 1]), last.offset, last.bytes)
  }

  function Joined(ws: seq<Write>): Bytes {
    if ws == [] then [] else Joined(ws[..|ws| - 1]) + ws[|ws| - 1].bytes
  }

  lemma WriteNext(was: Bytes, ws: seq<Write>, offset: nat, b: Bytes) returns (ws': seq<Write>)
    requires FillsUpTo(ws, offset) && offset + |b| <= |was|
    ensures ws' == ws + [Write(offset, b)] && FillsUpTo(ws', offset + |b|)
    ensures PatchAll(was, ws') == Patched(PatchAll(was, ws), offset, b)
    ensures Joined(ws') == Joined(ws) + b
  {
    ws' := ws + [Write(offset, b)];
    assert ws'[..|ws|] == ws;
  }

  lemma {:induction false} FilledIsJoined(buf: Bytes, ws: seq<Write>, n: nat)
    requires FillsUpTo(ws, n) && n <= |buf|
    ensures PatchAll(buf, ws)[..n] == Joined(ws)
  {
    if ws != [] {
      var last := ws[|ws| - 1];
      FilledIsJoined(buf, ws[..|ws| - 1], last.offset);
      PatchedPrefix(PatchAll(buf, ws[..|ws| - 1]), last.offset, last.bytes);
    }
  }

  lemma PatchedPrefix(buf: Bytes, offset: nat, b: Bytes)
    requires offset + |b| <= |buf|
    ensures Patched(buf, offset, b)[..offset + |b|] == buf[..offset] + b
  {
  }

  predicate Covers(w: Write, i: nat) {
    w.offset <= i < w.offset + |w.bytes|
  }

  // Such writes partition the buffer: every byte is written, and only once.
  lemma {:induction false} WrittenOnce(ws: seq<Write>, n: nat, i: nat) returns (k: nat)
    requires FillsUpTo(ws, n) && i < n
    ensures k < |ws| && Covers(ws[k], i)
    ensures forall j :: 0 <= j < |ws| && Covers(ws[j], i) ==> j == k
  {
    var init := ws[..|ws| - 1];
    assert forall j :: 0 <= j < |init| ==> ws[j] == init[j] && init[j].offset + |init[j].bytes| <= ws[|ws| - 1].offset;
    if i < ws[|ws| - 1].offset {
      k := WrittenOnce(init, ws[|ws| - 1].offset, i);
    } else {
      k := |ws| - 1;
    }
  }
}
