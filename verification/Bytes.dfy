// Byte strings, big-endian integers and the two orders on byte arrays.
module Bytes {
  import opened Residues

  type Byte = x: int | 0 <= x < 256
  type Bytes = seq<Byte>

  const TWO_32: nat := 0x1_0000_0000
  const TWO_64: nat := 0x1_0000_0000_0000_0000
  const TWO_128: nat := 0x1_0000_0000_0000_0000_0000_0000_0000_0000

  function Pow256(n: nat): (p: nat)
    ensures 0 < p
  {
    if n == 0 then 1 else 256 * Pow256(n - 1)
  }

  lemma PowersOf256()
    ensures Pow256(4) == TWO_32 && Pow256(8) == TWO_64 && Pow256(16) == TWO_128
  {
    assert Pow256(4) == 0x1_0000_0000;
    assert Pow256(8) == 0x1_0000_0000 * Pow256(4);
    assert Pow256(12) == 0x1_0000_0000 * Pow256(8);
    assert Pow256(16) == 0x1_0000_0000 * Pow256(12);
  }

  // The n low-order bytes of v, most significant first.
  function BE(v: int, n: nat): (b: Bytes)
    ensures |b| == n
    decreases n, v
  {
    if n == 0 then [] else BE(v / 256, n - 1) + [v % 256]
  }

  function Value(b: Bytes): nat {
    if b == [] then 0 else Value(b[..|b| - 1]) * 256 + b[|b| - 1]
  }

  lemma {:induction false} ValueBound(b: Bytes)
    ensures Value(b) < Pow256(|b|)
  {
    if b != [] { ValueBound(b[..|b| - 1]); }
  }

  lemma {:induction false} ValueOfBE(v: nat, n: nat)
    requires v < Pow256(n)
    ensures Value(BE(v, n)) == v
  {
    if n > 0 {
      ValueOfBE(v / 256, n - 1);
      assert BE(v, n)[..n - 1] == BE(v / 256, n - 1);
    }
  }

  lemma {:induction false} BEOfValue(b: Bytes)
    ensures BE(Value(b), |b|) == b
  {
    if b != [] {
      var init := b[..|b| - 1];
      BEOfValue(init);
      assert Value(b) / 256 == Value(init) && Value(b) % 256 == b[|b| - 1];
      assert init + [b[|b| - 1]] == b;
    }
  }

  lemma BEInjective(v: nat, w: nat, n: nat)
    requires v < Pow256(n) && w < Pow256(n) && BE(v, n) == BE(w, n)
    ensures v == w
  {
    ValueOfBE(v, n);
    ValueOfBE(w, n);
  }

  lemma ResidueStep(v: int, p: int)
    requires 0 < p
    ensures v % (256 * p) == 256 * ((v / 256) % p) + v % 256
  {
    var d := v / 256;
    var k, m := d / p, d % p;
    assert d == k * p + m && v == 256 * d + v % 256;
    assert 256 * (k * p) == k * (256 * p);
    ModUnique(v, k, 256 * m + v % 256, 256 * p);
  }

  // Of any integer, n bytes keep exactly the residue modulo 256^n.
  lemma {:induction false} BEKeepsResidue(v: int, w: int, n: nat)
    ensures BE(v, n) == BE(w, n) <==> v % Pow256(n) == w % Pow256(n)
    decreases n
  {
    if n > 0 {
      BEKeepsResidue(v / 256, w / 256, n - 1);
      ResidueStep(v, Pow256(n - 1));
      ResidueStep(w, Pow256(n - 1));
      LastByteApart(BE(v / 256, n - 1), v % 256, BE(w / 256, n - 1), w % 256);
    }
  }

  lemma LastByteApart(a: Bytes, x: Byte, b: Bytes, y: Byte)
    requires |a| == |b|
    ensures a + [x] == b + [y] <==> a == b && x == y
  {
    if a + [x] == b + [y] { CancelPrefix(a, [x], b, [y]); }
  }

  function Zeros(n: nat): (b: Bytes)
    ensures |b| == n && forall i :: 0 <= i < n ==> b[i] == 0
  {
    seq(n, _ => 0)
  }

  lemma {:induction false} BEOfZero(n: nat)
    ensures BE(0, n) == Zeros(n)
  {
    if n > 0 {
      BEOfZero(n - 1);
      assert Zeros(n) == Zeros(n - 1) + [0];
    }
  }

  // Widening a value that fits n bytes only adds leading zeros.
  lemma {:induction false} BEWiden(v: nat, n: nat, k: nat)
    requires v < Pow256(n)
    ensures BE(v, k + n) == Zeros(k) + BE(v, n)
  {
    if n == 0 {
      BEOfZero(k);
    } else {
      BEWiden(v / 256, n - 1, k);
      assert k + n - 1 == k + (n - 1);
      assert Zeros(k) + (BE(v / 256, n - 1) + [v % 256]) == (Zeros(k) + BE(v / 256, n - 1)) + [v % 256];
    }
  }

  lemma DivPow(v: int, i: nat)
    ensures (v / 256) / Pow256(i) == v / Pow256(i + 1)
  {
    var p, d := Pow256(i), v / 256;
    var e, m, r := d / p, d % p, v % 256;
    assert Pow256(i + 1) == 256 * p;
    assert v == 256 * d + r && d == e * p + m;
    assert v == e * (256 * p) + (256 * m + r) by {
      assert 256 * (e * p) == e * (256 * p);
    }
    ModUnique(v, e, 256 * m + r, 256 * p);
  }

  // Byte i from the right is what shifting right by 8 * i and masking leaves.
  lemma {:induction false} BEAt(v: int, n: nat, i: nat)
    requires i < n
    ensures BE(v, n)[n - 1 - i] == (v / Pow256(i)) % 256
    decreases i
  {
    if i > 0 {
      BEAt(v / 256, n - 1, i - 1);
      DivPow(v, i - 1);
    }
  }

  // Encoding of a string of ASCII characters.
  function Ascii(s: string): (b: Bytes)
    requires forall i :: 0 <= i < |s| ==> s[i] < 128 as char
    ensures |b| == |s|
  {
    seq(|s|, i requires 0 <= i < |s| => s[i] as int)
  }

  // ----- Taking concatenations apart

  lemma CancelPrefix<T>(a: seq<T>, x: seq<T>, b: seq<T>, y: seq<T>)
    requires |a| == |b| && a + x == b + y
    ensures a == b && x == y
  {
    assert a == (a + x)[..|a|] && b == (b + y)[..|b|];
    assert x == (a + x)[|a|..] && y == (b + y)[|b|..];
  }

  lemma CancelSuffix<T>(a: seq<T>, x: seq<T>, b: seq<T>, y: seq<T>)
    requires |x| == |y| && a + x == b + y
    ensures a == b && x == y
  {
    assert |a| == |a + x| - |x| && |b| == |b + y| - |y|;
    CancelPrefix(a, x, b, y);
  }

  lemma Associate<T>(a: seq<T>, b: seq<T>, c: seq<T>)
    ensures a + (b + c) == (a + b) + c
  {
  }

  // ----- Orders

  // Lexicographic order of equally long arrays.
  predicate LexLess(a: Bytes, b: Bytes)
    requires |a| == |b|
  {
    a != [] && (a[0] < b[0] || (a[0] == b[0] && LexLess(a[1..], b[1..])))
  }

  lemma {:induction false} ValueHead(b: Bytes)
    requires b != []
    ensures Value(b) == b[0] * Pow256(|b| - 1) + Value(b[1..])
  {
    if |b| == 1 {
      assert b[..0] == [] && b[1..] == [];
    } else {
      var init := b[..|b| - 1];
      ValueHead(init);
      assert init[1..] == b[1..][..|b| - 2];
      assert Pow256(|b| - 1) == 256 * Pow256(|b| - 2);
      assert (b[0] * Pow256(|b| - 2)) * 256 == b[0] * Pow256(|b| - 1);
    }
  }

  lemma ScaleLess(x: int, y: int, p: int)
    requires x < y && 0 < p
    ensures x * p + p <= y * p
  {
    DistributeSum(x, y - x, p);
    MulBound(y - x, p);
  }

  // Lexicographic order is numeric order.
  lemma {:induction false} LexIsNumeric(a: Bytes, b: Bytes)
    requires |a| == |b|
    ensures LexLess(a, b) <==> Value(a) < Value(b)
  {
    if a != [] {
      ValueHead(a);
      ValueHead(b);
      ValueBound(a[1..]);
      ValueBound(b[1..]);
      if a[0] == b[0] {
        LexIsNumeric(a[1..], b[1..]);
      } else if a[0] < b[0] {
        ScaleLess(a[0], b[0], Pow256(|a| - 1));
      } else {
        ScaleLess(b[0], a[0], Pow256(|a| - 1));
      }
    }
  }

  // Where two arrays first differ decides the order.
  lemma {:induction false} FirstDifferenceDecides(a: Bytes, b: Bytes, i: nat)
    requires |a| == |b| && i < |a| && a[..i] == b[..i] && a[i] != b[i]
    ensures Value(a) < Value(b) <==> a[i] < b[i]
    ensures Value(b) < Value(a) <==> b[i] < a[i]
  {
    ValueHead(a);
    ValueHead(b);
    if i == 0 {
      ValueBound(a[1..]);
      ValueBound(b[1..]);
      if a[0] < b[0] {
        ScaleLess(a[0], b[0], Pow256(|a| - 1));
      } else {
        ScaleLess(b[0], a[0], Pow256(|a| - 1));
      }
    } else {
      assert a[0] == a[..i][0] && b[0] == b[..i][0];
      assert a[1..][..i - 1] == a[..i][1..] && b[1..][..i - 1] == b[..i][1..];
      FirstDifferenceDecides(a[1..], b[1..], i - 1);
    }
  }
}
