// Polynomials over the integers modulo a prime, as coefficient sequences with
// the constant term first, and the two facts secret sharing rests on: a
// polynomial of degree below k is fixed by k points, and k points can always
// be met.
module Polynomials {
  import opened PrimeField
  import opened Residues

  type Poly = seq<int>

  ghost function Eval(p: Poly, x: int): int {
    if p == [] then 0 else p[0] + x * Eval(p[1..], x)
  }

  lemma EvalAtZero(p: Poly)
    ensures Eval(p, 0) == if p == [] then 0 else p[0]
  {
  }

  // p + k * r.
  ghost function AddScaled(p: Poly, k: int, r: Poly): (s: Poly)
    ensures |s| == if |p| <= |r| then |r| else |p|
  {
    if r == [] then p
    else if p == [] then [k * r[0]] + AddScaled([], k, r[1..])
    else [p[0] + k * r[0]] + AddScaled(p[1..], k, r[1..])
  }

  lemma {:induction false} EvalAddScaled(p: Poly, k: int, r: Poly, x: int)
    ensures Eval(AddScaled(p, k, r), x) == Eval(p, x) + k * Eval(r, x)
  {
    if r == [] {
    } else {
      var p' := if p == [] then [] else p[1..];
      var p0 := if p == [] then 0 else p[0];
      EvalAddScaled(p', k, r[1..], x);
      var s := AddScaled(p, k, r);
      assert s[0] == p0 + k * r[0] && s[1..] == AddScaled(p', k, r[1..]);
      assert p == [] ==> Eval(p', x) == 0;
      Distribute(p0, Eval(p', x), r[0], Eval(r[1..], x), k, x);
    }
  }

  lemma Distribute(p0: int, u: int, r0: int, v: int, k: int, x: int)
    ensures (p0 + k * r0) + x * (u + k * v) == (p0 + x * u) + k * (r0 + x * v)
  {
  }

  lemma {:induction false} AddScaledAt(p: Poly, k: int, r: Poly, i: nat)
    requires i < |AddScaled(p, k, r)|
    ensures AddScaled(p, k, r)[i] == (if i < |p| then p[i] else 0) + k * (if i < |r| then r[i] else 0)
  {
    if r != [] && i > 0 {
      AddScaledAt(if p == [] then [] else p[1..], k, r[1..], i - 1);
    }
  }

  // Synthetic division by (x - c).
  ghost function Quotient(p: Poly, c: int): (g: Poly)
    ensures |g| == if p == [] then 0 else |p| - 1
  {
    if |p| <= 1 then [] else [Eval(p[1..], c)] + Quotient(p[1..], c)
  }

  lemma {:induction false} Division(p: Poly, c: int, x: int)
    ensures Eval(p, x) == (x - c) * Eval(Quotient(p, c), x) + Eval(p, c)
  {
    if |p| <= 1 {
      assert |p| == 1 ==> p[1..] == [];
    } else {
      Division(p[1..], c, x);
      var g, g' := Quotient(p, c), Quotient(p[1..], c);
      assert g[0] == Eval(p[1..], c) && g[1..] == g';
      var e, t := Eval(p[1..], c), Eval(g', x);
      assert Eval(p, x) == p[0] + x * ((x - c) * t + e);
      HornerStep(x, c, t, e);
    }
  }

  lemma HornerStep(x: int, c: int, t: int, e: int)
    ensures x * ((x - c) * t + e) == (x - c) * (e + x * t) + c * e
  {
  }

  // The monic polynomial whose roots are the first m points.
  ghost function RootPoly(xs: seq<int>, m: nat): (p: Poly)
    requires m <= |xs|
    ensures |p| == m + 1
  {
    if m == 0 then [1]
    else AddScaled([0] + RootPoly(xs, m - 1), -xs[m - 1], RootPoly(xs, m - 1))
  }

  // The product of (x - xs[j]) over the first m points.
  ghost function RootProduct(xs: seq<int>, m: nat, x: int): int
    requires m <= |xs|
  {
    if m == 0 then 1 else RootProduct(xs, m - 1, x) * (x - xs[m - 1])
  }

  lemma {:induction false} EvalRootPoly(xs: seq<int>, m: nat, x: int)
    requires m <= |xs|
    ensures Eval(RootPoly(xs, m), x) == RootProduct(xs, m, x)
  {
    if m == 0 {
      assert [1][1..] == [];
    } else {
      var p, e := RootPoly(xs, m - 1), RootProduct(xs, m - 1, x);
      EvalRootPoly(xs, m - 1, x);
      EvalAddScaled([0] + p, -xs[m - 1], p, x);
      assert ([0] + p)[1..] == p;
      assert x * e + (-xs[m - 1]) * e == e * (x - xs[m - 1]);
    }
  }

  lemma {:induction false} RootProductAtRoot(xs: seq<int>, m: nat, i: nat)
    requires i < m <= |xs|
    ensures RootProduct(xs, m, xs[i]) == 0
  {
    if i < m - 1 {
      RootProductAtRoot(xs, m - 1, i);
    }
  }

  // Interpolation points: pairwise distinct residues.
  predicate Distinct(xs: seq<int>) {
    forall i, j :: 0 <= i < j < |xs| ==> xs[i] != xs[j]
  }

  ghost predicate Points(xs: seq<int>, q: nat) {
    Distinct(xs) && forall i :: 0 <= i < |xs| ==> 0 <= xs[i] < q
  }

  lemma {:induction false} RootProductElsewhere(xs: seq<int>, m: nat, x: int, q: nat)
    requires IsPrime(q) && m <= |xs| && Points(xs, q) && 0 <= x < q
    requires forall i :: 0 <= i < m ==> xs[i] != x
    ensures RootProduct(xs, m, x) % q != 0
  {
    if m == 0 {
      ModUnique(1, 0, 1, q);
    } else {
      RootProductElsewhere(xs, m - 1, x, q);
      DistinctResidues(x, xs[m - 1], q);
      NoZeroDivisors(RootProduct(xs, m - 1, x), x - xs[m - 1], q);
    }
  }

  ghost predicate ZeroMod(p: Poly, q: nat)
    requires 0 < q
  {
    forall i :: 0 <= i < |p| ==> p[i] % q == 0
  }

  lemma {:induction false} ZeroQuotient(p: Poly, c: int, q: nat)
    requires 0 < q && ZeroMod(Quotient(p, c), q) && Eval(p, c) % q == 0
    ensures ZeroMod(p, q)
  {
    if |p| <= 1 {
      assert |p| == 1 ==> p[1..] == [] && Eval(p, c) == p[0];
    } else {
      var g, e := Quotient(p, c), Eval(p[1..], c);
      assert g[0] == e && g[1..] == Quotient(p[1..], c);
      ModUnique(0, 0, 0, q);
      CongScale(-c, e, 0, q);
      assert p[0] == Eval(p, c) + -c * e;
      CongAdd(Eval(p, c), 0, -c * e, -c * 0, q);
      ZeroQuotient(p[1..], c, q);
      assert forall i :: 1 <= i < |p| ==> p[i] == p[1..][i - 1];
    }
  }

  // A polynomial with at least as many distinct roots as coefficients is zero.
  lemma {:induction false} RootCount(p: Poly, xs: seq<int>, q: nat)
    requires IsPrime(q) && Points(xs, q) && |p| <= |xs|
    requires forall i :: 0 <= i < |xs| ==> Eval(p, xs[i]) % q == 0
    ensures ZeroMod(p, q)
    decreases |xs|
  {
    if p != [] {
      var m := |xs| - 1;
      var c, g, ys := xs[m], Quotient(p, xs[m]), xs[..m];
      ModUnique(0, 0, 0, q);
      forall i | 0 <= i < m ensures Eval(g, ys[i]) % q == 0 {
        Division(p, c, xs[i]);
        var t := (xs[i] - c) * Eval(g, xs[i]);
        CongScale(-1, Eval(p, c), 0, q);
        CongAdd(Eval(p, xs[i]), 0, -1 * Eval(p, c), 0, q);
        assert t == Eval(p, xs[i]) + -1 * Eval(p, c);
        NoZeroDivisors(xs[i] - c, Eval(g, xs[i]), q);
        DistinctResidues(xs[i], c, q);
      }
      RootCount(g, ys, q);
      ZeroQuotient(p, c, q);
    }
  }

  // Values of a polynomial at points, modulo q.
  ghost predicate Through(p: Poly, xs: seq<int>, ys: seq<int>, q: nat)
    requires 0 < q && |xs| == |ys|
  {
    forall i :: 0 <= i < |xs| ==> Cong(Eval(p, xs[i]), ys[i], q)
  }

  // A polynomial of degree below k in canonical form: k reduced coefficients.
  ghost predicate Reduced(p: Poly, k: nat, q: nat) {
    |p| == k && forall i :: 0 <= i < k ==> 0 <= p[i] < q
  }

  lemma {:induction false} UniqueThrough(p: Poly, r: Poly, xs: seq<int>, ys: seq<int>, q: nat)
    requires IsPrime(q) && Points(xs, q) && |xs| == |ys|
    requires Reduced(p, |xs|, q) && Reduced(r, |xs|, q)
    requires Through(p, xs, ys, q) && Through(r, xs, ys, q)
    ensures p == r
  {
    var d := AddScaled(p, -1, r);
    forall i | 0 <= i < |xs| ensures Eval(d, xs[i]) % q == 0 {
      EvalAddScaled(p, -1, r, xs[i]);
      CongSub(Eval(p, xs[i]), Eval(r, xs[i]), q);
    }
    RootCount(d, xs, q);
    forall i | 0 <= i < |xs| ensures p[i] == r[i] {
      AddScaledAt(p, -1, r, i);
      assert d[i] % q == 0;
      if p[i] != r[i] { DistinctResidues(p[i], r[i], q); }
    }
  }

  ghost function Reduce(p: Poly, q: nat): (r: Poly)
    requires 0 < q
    ensures Reduced(r, |p|, q)
  {
    if p == [] then [] else [p[0] % q] + Reduce(p[1..], q)
  }

  lemma {:induction false} EvalReduce(p: Poly, x: int, q: nat)
    requires 0 < q
    ensures Cong(Eval(Reduce(p, q), x), Eval(p, x), q)
  {
    if p != [] {
      var r := Reduce(p, q);
      assert r[0] == p[0] % q && r[1..] == Reduce(p[1..], q);
      EvalReduce(p[1..], x, q);
      CongMod(p[0], q);
      CongScale(x, Eval(r[1..], x), Eval(p[1..], x), q);
      CongAdd(r[0], p[0], x * Eval(r[1..], x), x * Eval(p[1..], x), q);
    }
  }

  // The multiple of d that moves u to y.
  ghost function Correction(u: int, y: int, d: int, q: nat): (k: int)
    requires IsPrime(q) && d % q != 0
    ensures Cong(u + k * d, y, q)
  {
    var inv, e := Invert(d, q), y - u;
    ScaleByInverse(e, d, inv, q);
    CongAdd(u, u, (e * inv) * d, e, q);
    e * inv
  }

  // Newton's form: each new point adds a multiple of the root polynomial of
  // the points before it.
  ghost function Newton(xs: seq<int>, ys: seq<int>, m: nat, q: nat): (p: Poly)
    requires IsPrime(q) && Points(xs, q) && m <= |xs| == |ys|
    ensures |p| == m
  {
    if m == 0 then []
    else
      var p := Newton(xs, ys, m - 1, q);
      AddScaled(p, NewtonCoefficient(p, xs, ys, m, q), RootPoly(xs, m - 1))
  }

  ghost function NewtonCoefficient(p: Poly, xs: seq<int>, ys: seq<int>, m: nat, q: nat): (k: int)
    requires IsPrime(q) && Points(xs, q) && 0 < m <= |xs| == |ys|
    ensures Cong(Eval(p, xs[m - 1]) + k * RootProduct(xs, m - 1, xs[m - 1]), ys[m - 1], q)
  {
    var c := xs[m - 1];
    RootProductElsewhere(xs, m - 1, c, q);
    Correction(Eval(p, c), ys[m - 1], RootProduct(xs, m - 1, c), q)
  }

  lemma EvalCorrected(p: Poly, k: int, xs: seq<int>, m: nat, x: int)
    requires m <= |xs|
    ensures Eval(AddScaled(p, k, RootPoly(xs, m)), x) == Eval(p, x) + k * RootProduct(xs, m, x)
  {
    EvalAddScaled(p, k, RootPoly(xs, m), x);
    EvalRootPoly(xs, m, x);
  }

  lemma {:induction false} NewtonThrough(xs: seq<int>, ys: seq<int>, m: nat, q: nat)
    requires IsPrime(q) && Points(xs, q) && m <= |xs| == |ys|
    ensures forall i :: 0 <= i < m ==> Cong(Eval(Newton(xs, ys, m, q), xs[i]), ys[i], q)
  {
    if m > 0 {
      NewtonThrough(xs, ys, m - 1, q);
      var p := Newton(xs, ys, m - 1, q);
      var k := NewtonCoefficient(p, xs, ys, m, q);
      forall i | 0 <= i < m ensures Cong(Eval(Newton(xs, ys, m, q), xs[i]), ys[i], q) {
        CorrectedAt(p, k, xs, m, i);
      }
    }
  }

  // Correcting at the last point leaves the values at the others.
  lemma CorrectedAt(p: Poly, k: int, xs: seq<int>, m: nat, i: nat)
    requires i < m <= |xs|
    ensures var x := xs[i];
            Eval(AddScaled(p, k, RootPoly(xs, m - 1)), x)
              == Eval(p, x) + if i < m - 1 then 0 else k * RootProduct(xs, m - 1, x)
  {
    EvalCorrected(p, k, xs, m - 1, xs[i]);
    if i < m - 1 {
      RootProductAtRoot(xs, m - 1, i);
    }
  }

  // Interpolation exists and is unique: whatever values are prescribed at k
  // distinct points, exactly one polynomial of degree below k takes them.
  lemma {:induction false} ExactlyOnePolynomial(xs: seq<int>, ys: seq<int>, q: nat) returns (p: Poly)
    requires IsPrime(q) && Points(xs, q) && |xs| == |ys|
    ensures Reduced(p, |xs|, q) && Through(p, xs, ys, q)
    ensures forall r: Poly :: Reduced(r, |xs|, q) && Through(r, xs, ys, q) ==> r == p
  {
    var n := Newton(xs, ys, |xs|, q);
    p := Reduce(n, q);
    NewtonThrough(xs, ys, |xs|, q);
    forall i | 0 <= i < |xs| ensures Cong(Eval(p, xs[i]), ys[i], q) {
      EvalReduce(n, xs[i], q);
    }
    forall r: Poly | Reduced(r, |xs|, q) && Through(r, xs, ys, q) ensures r == p {
      UniqueThrough(r, p, xs, ys, q);
    }
  }
}
