// Arithmetic in the integers modulo a prime, the scalar field behind the
// prototype's secret sharing. Values are plain integers; `Cong` says that two
// of them name the same scalar.
module PrimeField {
  import opened Residues

  ghost predicate IsPrime(q: int) {
    2 <= q && forall d :: 2 <= d < q ==> q % d != 0
  }

  predicate Cong(a: int, b: int, q: int)
    requires 0 < q
  {
    a % q == b % q
  }

  // Congruent integers differ by a multiple of q.
  lemma CongDifference(a: int, b: int, q: int) returns (k: int)
    requires 0 < q && Cong(a, b, q)
    ensures a == b + k * q
  {
    k := a / q - b / q;
    DistributeDifference(a / q, b / q, q);
  }

  lemma DifferByMultiple(a: int, b: int, k: int, q: int)
    requires 0 < q && a == b + k * q
    ensures Cong(a, b, q)
  {
    ModShift(b, k, q);
  }

  lemma CongAdd(a: int, b: int, c: int, d: int, q: int)
    requires 0 < q && Cong(a, b, q) && Cong(c, d, q)
    ensures Cong(a + c, b + d, q)
  {
    var m := CongDifference(a, b, q);
    var n := CongDifference(c, d, q);
    assert a + c == (b + d) + (m + n) * q by { DistributeSum(m, n, q); }
    DifferByMultiple(a + c, b + d, m + n, q);
  }

  lemma CongMul(a: int, b: int, c: int, d: int, q: int)
    requires 0 < q && Cong(a, b, q) && Cong(c, d, q)
    ensures Cong(a * c, b * d, q)
  {
    var m := CongDifference(a, b, q);
    var n := CongDifference(c, d, q);
    ExpandProduct(a, b, m, c, d, n, q);
    DifferByMultiple(a * c, b * d, b * n + m * c, q);
  }

  lemma ExpandProduct(a: int, b: int, m: int, c: int, d: int, n: int, q: int)
    requires a == b + m * q && c == d + n * q
    ensures a * c == b * d + (b * n + m * c) * q
  {
    calc {
      a * c;
      b * c + (m * q) * c;
      { Regroup(m, q, c); Regroup(m, c, q); }
      b * c + (m * c) * q;
      b * (d + n * q) + (m * c) * q;
      { Regroup(b, n, q); }
      b * d + (b * n) * q + (m * c) * q;
      b * d + (b * n + m * c) * q;
    }
  }

  lemma CongScale(k: int, a: int, b: int, q: int)
    requires 0 < q && Cong(a, b, q)
    ensures Cong(k * a, k * b, q)
  {
    CongMul(k, k, a, b, q);
  }

  // A value and its residue are congruent.
  lemma CongMod(a: int, q: int)
    requires 0 < q
    ensures Cong(a % q, a, q)
  {
  }

  lemma CongSub(a: int, b: int, q: int)
    requires 0 < q
    ensures Cong(a, b, q) <==> (a - b) % q == 0
  {
    if Cong(a, b, q) {
      CongAdd(a, b, -b, -b, q);
    }
    if (a - b) % q == 0 {
      CongAdd(a - b, 0, b, b, q);
    }
  }

  lemma DistinctResidues(a: int, b: int, q: int)
    requires 0 <= a < q && 0 <= b < q && a != b
    ensures (a - b) % q != 0
  {
  }

  // The scalar inversion of a nonzero residue.
  function Inverse(a: nat, q: nat): (r: nat)
    requires IsPrime(q) && 0 < a < q
    ensures r < q && (a * r) % q == 1
    decreases a
  {
    if a == 1 then
      ModUnique(1, 0, 1, q);
      1
    else
      var k, m := q / a, q % a;
      assert q == k * a + m;
      InverseStep(a, k, m, Inverse(m, q), q);
      ((0 - k) * Inverse(m, q)) % q
  }

  lemma InverseStep(a: nat, k: nat, m: nat, s: nat, q: nat)
    requires 1 < q && q == k * a + m && (m * s) % q == 1
    ensures (a * (((0 - k) * s) % q)) % q == 1
  {
    CongMod((0 - k) * s, q);
    CongScale(a, ((0 - k) * s) % q, (0 - k) * s, q);
    assert a * ((0 - k) * s) == m * s + (0 - s) * q by {
      assert (0 - s) * q == (0 - s) * (k * a) + (0 - s) * m;
      assert a * ((0 - k) * s) == (0 - s) * (k * a);
    }
    ModShift(m * s, 0 - s, q);
  }

  // Inversion of any integer that is not a multiple of q.
  function Invert(a: int, q: nat): (r: nat)
    requires IsPrime(q) && a % q != 0
    ensures r < q && (a * r) % q == 1
  {
    var r := Inverse(a % q, q);
    CongMod(a, q);
    CongMul(a % q, a, r, r, q);
    r
  }

  // (e / d) * d is e again.
  lemma ScaleByInverse(e: int, d: int, inv: int, q: nat)
    requires 1 < q && (d * inv) % q == 1
    ensures Cong((e * inv) * d, e, q)
  {
    ModUnique(1, 0, 1, q);
    CongScale(e, d * inv, 1, q);
    Regroup(e, d, inv);
  }

  lemma Regroup(a: int, b: int, c: int)
    ensures a * (b * c) == (a * c) * b
    ensures a * (b * c) == (a * b) * c
  {
  }

  // An invertible factor cancels.
  lemma CancelBy(c: int, r: int, a: int, b: int, q: nat)
    requires 1 < q && (c * r) % q == 1 && Cong(c * a, c * b, q)
    ensures Cong(a, b, q)
  {
    CongScale(r, c * a, c * b, q);
    ScaleByInverse(a, c, r, q);
    ScaleByInverse(b, c, r, q);
    Regroup(r, c, a);
    Regroup(r, c, b);
  }

  lemma Cancel(c: int, a: int, b: int, q: nat)
    requires IsPrime(q) && c % q != 0 && Cong(c * a, c * b, q)
    ensures Cong(a, b, q)
  {
    CancelBy(c, Invert(c, q), a, b, q);
  }

  // A prime field has no zero divisors.
  lemma NoZeroDivisors(a: int, b: int, q: nat)
    requires IsPrime(q)
    ensures (a * b) % q == 0 <==> a % q == 0 || b % q == 0
  {
    ModUnique(0, 0, 0, q);
    if a % q == 0 { CongMul(a, 0, b, b, q); }
    if b % q == 0 { CongMul(a, a, b, 0, q); }
    if (a * b) % q == 0 && a % q != 0 {
      assert a * 0 == 0;
      Cancel(a, b, 0, q);
    }
  }
}
