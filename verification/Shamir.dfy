// Lagrange interpolation at zero over a prime scalar field.
//
// The basis products are kept as exact integers over the first m points, in
// the order the loops multiply them; only inversion and the final value are
// taken modulo the field order q.
module Shamir {
  import opened Bytes
  import opened Outcome
  import opened PrimeField
  import opened Polynomials
  import opened Residues

  datatype ParticipantShare = ParticipantShare(index: Byte, secretShare: nat)

  function Indices(shares: seq<ParticipantShare>): (xs: seq<int>)
    ensures |xs| == |shares| && forall i :: 0 <= i < |xs| ==> xs[i] == shares[i].index
  {
    seq(|shares|, i requires 0 <= i < |shares| => shares[i].index as int)
  }

  function Secrets(shares: seq<ParticipantShare>): (ys: seq<int>)
    ensures |ys| == |shares| && forall i :: 0 <= i < |ys| ==> ys[i] == shares[i].secretShare
  {
    seq(|shares|, i requires 0 <= i < |shares| => shares[i].secretShare as int)
  }

  // Product of (0 - x_j) over j < m other than i.
  ghost function Numerator(xs: seq<int>, i: nat, m: nat): int
    requires i < |xs| && m <= |xs|
  {
    if m == 0 then 1
    else if m - 1 == i then Numerator(xs, i, m - 1)
    else Numerator(xs, i, m - 1) * -xs[m - 1]
  }

  // Product of (x_i - x_j) over j < m other than i.
  ghost function Denominator(xs: seq<int>, i: nat, m: nat): int
    requires i < |xs| && m <= |xs|
  {
    if m == 0 then 1
    else if m - 1 == i then Denominator(xs, i, m - 1)
    else Denominator(xs, i, m - 1) * (xs[i] - xs[m - 1])
  }

  // Inversion can only fail on a repeated index.
  lemma {:induction false} DenominatorInvertible(xs: seq<int>, i: nat, m: nat, q: nat)
    requires IsPrime(q) && i < |xs| && m <= |xs| && forall j :: 0 <= j < |xs| ==> 0 <= xs[j] < q
    ensures Denominator(xs, i, m) % q == 0 <==> exists j :: 0 <= j < m && j != i && xs[j] == xs[i]
  {
    if m == 0 {
      ModUnique(1, 0, 1, q);
    } else {
      DenominatorInvertible(xs, i, m - 1, q);
      if m - 1 != i {
        var d := xs[i] - xs[m - 1];
        NoZeroDivisors(Denominator(xs, i, m - 1), d, q);
        if d == 0 {
          ModUnique(0, 0, 0, q);
        } else {
          DistinctResidues(xs[i], xs[m - 1], q);
        }
      }
    }
  }

  // With nonzero indices no numerator vanishes.
  lemma {:induction false} NumeratorNonzero(xs: seq<int>, i: nat, m: nat, q: nat)
    requires IsPrime(q) && i < |xs| && m <= |xs| && forall j :: 0 <= j < |xs| ==> 0 < xs[j] < q
    ensures Numerator(xs, i, m) % q != 0
  {
    if m == 0 {
      ModUnique(1, 0, 1, q);
    } else {
      NumeratorNonzero(xs, i, m - 1, q);
      if m - 1 != i {
        DistinctResidues(0, xs[m - 1], q);
        NoZeroDivisors(Numerator(xs, i, m - 1), -xs[m - 1], q);
      }
    }
  }

  lemma {:induction false} ProductsOfLast(xs: seq<int>, i: nat, m: nat)
    requires m <= i < |xs|
    ensures Numerator(xs, i, m) == RootProduct(xs, m, 0)
    ensures Denominator(xs, i, m) == RootProduct(xs, m, xs[i])
  {
    if m > 0 { ProductsOfLast(xs, i, m - 1); }
  }

  // The basis coefficient of point i at zero, over the first m points.
  ghost function Weight(xs: seq<int>, i: nat, m: nat, q: nat): int
    requires IsPrime(q) && Points(xs, q) && i < |xs| && m <= |xs|
  {
    DenominatorInvertible(xs, i, m, q);
    Numerator(xs, i, m) * Invert(Denominator(xs, i, m), q)
  }

  ghost function WeightedSum(xs: seq<int>, ys: seq<int>, n: nat, q: nat): int
    requires IsPrime(q) && Points(xs, q) && n <= |xs| == |ys|
  {
    if n == 0 then 0
    else WeightedSum(xs, ys, n - 1, q) + Weight(xs, n - 1, |xs|, q) * ys[n - 1]
  }

  // The secret the loops compute from points and values.
  ghost function Interpolate(xs: seq<int>, ys: seq<int>, q: nat): int
    requires IsPrime(q) && Points(xs, q) && |xs| == |ys|
  {
    WeightedSum(xs, ys, |xs|, q) % q
  }

  ghost predicate ValidShares(shares: seq<ParticipantShare>, q: nat) {
    forall i :: 0 <= i < |shares| ==> shares[i].secretShare < q
  }

  lemma SharePoints(shares: seq<ParticipantShare>, q: nat)
    requires q > 255 && Distinct(Indices(shares))
    ensures Points(Indices(shares), q)
  {
  }

  // Inner loop: the basis products of share i.
  method BasisProducts(xs: seq<int>, i: nat, q: nat) returns (numerator: nat, denominator: nat)
    requires 1 < q && i < |xs|
    ensures numerator < q && Cong(numerator, Numerator(xs, i, |xs|), q)
    ensures denominator < q && Cong(denominator, Denominator(xs, i, |xs|), q)
  {
    var xi := xs[i];
    numerator, denominator := 1, 1;
    for j := 0 to |xs|
      invariant numerator < q && Cong(numerator, Numerator(xs, i, j), q)
      invariant denominator < q && Cong(denominator, Denominator(xs, i, j), q)
    {
      if i == j {
        continue;
      }
      var xj := xs[j];
      ScalarProduct(numerator, Numerator(xs, i, j), -xj, q);
      ScalarProduct(denominator, Denominator(xs, i, j), xi - xj, q);
      numerator := (numerator * -xj) % q;
      denominator := (denominator * (xi - xj)) % q;
    }
  }

  // Outer loop of the interpolation. None is the panic of unwrapping a failed
  // inversion; it happens exactly on a repeated index.
  method LagrangeInterpolateAtZero(shares: seq<ParticipantShare>, q: nat) returns (r: Option<nat>)
    requires IsPrime(q) && q > 255 && ValidShares(shares, q)
    ensures r.Some? <==> Distinct(Indices(shares))
    ensures r.Some? ==> r.value < q && r.value == Interpolate(Indices(shares), Secrets(shares), q)
  {
    var xs := Indices(shares);
    ghost var ys := Secrets(shares);
    var result: nat := 0;
    ModUnique(0, 0, 0, q);
    for i := 0 to |shares|
      invariant forall a, b :: 0 <= a < i && 0 <= b < |xs| && a != b ==> xs[a] != xs[b]
      invariant result < q
      invariant Distinct(xs) ==> Cong(result, WeightedSum(xs, ys, i, q), q)
    {
      var numerator, denominator := BasisProducts(xs, i, q);
      DenominatorInvertible(xs, i, |xs|, q);
      ModUnique(denominator, 0, denominator, q);
      if denominator == 0 {
        return None;
      }
      assert forall b :: 0 <= b < |xs| && b != i ==> xs[b] != xs[i];
      var inv := Invert(denominator, q);
      var lagrange := (numerator * inv) % q;
      if Distinct(xs) {
        AccumulateTerm(xs, ys, i, numerator, denominator, inv, result, q);
      }
      result := (result + lagrange * shares[i].secretShare) % q;
    }
    SharePoints(shares, q);
    ModUnique(result, 0, result, q);
    r := Some(result);
  }

  lemma AccumulateTerm(xs: seq<int>, ys: seq<int>, i: nat, num: nat, den: nat, inv: int, result: nat, q: nat)
    requires IsPrime(q) && Points(xs, q) && i < |xs| == |ys|
    requires Cong(num, Numerator(xs, i, |xs|), q) && Cong(den, Denominator(xs, i, |xs|), q)
    requires (den * inv) % q == 1 && Cong(result, WeightedSum(xs, ys, i, q), q)
    ensures Cong((result + (num * inv) % q * ys[i]) % q, WeightedSum(xs, ys, i + 1, q), q)
  {
    WeightComputed(xs, i, num, den, inv, q);
    var w, lagrange := Weight(xs, i, |xs|, q), (num * inv) % q;
    ScalarProduct(lagrange, w, ys[i], q);
    CongAdd(result, WeightedSum(xs, ys, i, q), lagrange * ys[i], w * ys[i], q);
    CongMod(result + lagrange * ys[i], q);
  }

  lemma ScalarProduct(a: int, b: int, c: int, q: nat)
    requires 0 < q && Cong(a, b, q)
    ensures Cong((a * c) % q, b * c, q)
    ensures Cong(a * c, b * c, q)
  {
    CongMul(a, b, c, c, q);
    CongMod(a * c, q);
  }

  // Any inverse of the denominator gives the same coefficient.
  lemma WeightComputed(xs: seq<int>, i: nat, num: nat, den: nat, inv: int, q: nat)
    requires IsPrime(q) && Points(xs, q) && i < |xs|
    requires Cong(num, Numerator(xs, i, |xs|), q) && Cong(den, Denominator(xs, i, |xs|), q)
    requires (den * inv) % q == 1
    ensures Cong((num * inv) % q, Weight(xs, i, |xs|, q), q)
  {
    DenominatorInvertible(xs, i, |xs|, q);
    var d := Denominator(xs, i, |xs|);
    var t := Invert(d, q);
    CongMul(den, d, inv, inv, q);
    Cancel(d, inv, t, q);
    CongMul(num, Numerator(xs, i, |xs|), inv, t, q);
    CongMod(num * inv, q);
  }

  // ----- Interpolation recovers the constant term

  // The sum the interpolation forms over n of the first m points when the
  // values come from a polynomial.
  ghost function PolySum(xs: seq<int>, f: Poly, m: nat, n: nat, q: nat): int
    requires IsPrime(q) && Points(xs, q) && n <= m <= |xs|
  {
    if n == 0 then 0
    else PolySum(xs, f, m, n - 1, q) + Weight(xs, n - 1, m, q) * Eval(f, xs[n - 1])
  }

  // Dropping the last point p divides each other coefficient by (x_i - p) / (0 - p).
  lemma WeightStep(xs: seq<int>, i: nat, m: nat, q: nat)
    requires IsPrime(q) && Points(xs, q) && i < m - 1 < |xs|
    ensures Cong(Weight(xs, i, m, q) * (xs[i] - xs[m - 1]), -xs[m - 1] * Weight(xs, i, m - 1, q), q)
  {
    DenominatorInvertible(xs, i, m, q);
    DenominatorInvertible(xs, i, m - 1, q);
    var p, e := xs[m - 1], xs[i] - xs[m - 1];
    var d, n := Denominator(xs, i, m - 1), Numerator(xs, i, m - 1);
    var s, t := Invert(d * e, q), Invert(d, q);
    Regroup(d, s, e);
    Cancel(d, s * e, t, q);
    CongScale(n * -p, s * e, t, q);
    Reorder(n, -p, s, e, t);
  }

  lemma Reorder(n: int, p: int, s: int, e: int, t: int)
    ensures (n * p) * (s * e) == ((n * p) * s) * e
    ensures (n * p) * t == p * (n * t)
  {
  }

  lemma {:induction false} SumStep(xs: seq<int>, f: Poly, h: Poly, k: int, m: nat, n: nat, q: nat)
    requires IsPrime(q) && Points(xs, q) && n < m <= |xs|
    requires h == AddScaled(f, k, RootPoly(xs, m - 1)) && Eval(h, xs[m - 1]) % q == 0
    ensures Cong(PolySum(xs, f, m, n, q), -xs[m - 1] * PolySum(xs, Quotient(h, xs[m - 1]), m - 1, n, q), q)
  {
    if n > 0 {
      var i, p, g := n - 1, xs[m - 1], Quotient(h, xs[m - 1]);
      SumStep(xs, f, h, k, m, i, q);
      EvalAtRoot(xs, f, k, m - 1, i);
      Division(h, p, xs[i]);
      TermStep(xs, i, m, Eval(f, xs[i]), Eval(g, xs[i]), Eval(h, p), q);
      AddScaledTerm(-p, PolySum(xs, f, m, i, q), PolySum(xs, g, m - 1, i, q),
                    Weight(xs, i, m, q) * Eval(f, xs[i]), Weight(xs, i, m - 1, q) * Eval(g, xs[i]), q);
    }
  }

  // Adding a multiple of the root polynomial does not show at its roots.
  lemma EvalAtRoot(xs: seq<int>, f: Poly, k: int, m: nat, i: nat)
    requires i < m <= |xs|
    ensures Eval(AddScaled(f, k, RootPoly(xs, m)), xs[i]) == Eval(f, xs[i])
  {
    EvalAddScaled(f, k, RootPoly(xs, m), xs[i]);
    EvalRootPoly(xs, m, xs[i]);
    RootProductAtRoot(xs, m, i);
  }

  lemma AddScaledTerm(p: int, a: int, b: int, s: int, t: int, q: nat)
    requires 0 < q && Cong(a, p * b, q) && Cong(s, p * t, q)
    ensures Cong(a + s, p * (b + t), q)
  {
    CongAdd(a, p * b, s, p * t, q);
    assert p * (b + t) == p * b + p * t;
  }

  lemma TermStep(xs: seq<int>, i: nat, m: nat, fx: int, gx: int, hp: int, q: nat)
    requires IsPrime(q) && Points(xs, q) && i < m - 1 < |xs|
    requires fx == (xs[i] - xs[m - 1]) * gx + hp && hp % q == 0
    ensures Cong(Weight(xs, i, m, q) * fx, -xs[m - 1] * (Weight(xs, i, m - 1, q) * gx), q)
  {
    var e, w, p, w' := xs[i] - xs[m - 1], Weight(xs, i, m, q), -xs[m - 1], Weight(xs, i, m - 1, q);
    WeightStep(xs, i, m, q);
    CongScale(gx, w * e, p * w', q);
    ModUnique(0, 0, 0, q);
    CongScale(w, hp, 0, q);
    CongAdd(gx * (w * e), gx * (p * w'), w * hp, w * 0, q);
    ExpandTerm(w, e, gx, hp, p, w');
  }

  lemma ExpandTerm(w: int, e: int, gx: int, hp: int, p: int, w': int)
    ensures w * (e * gx + hp) == gx * (w * e) + w * hp
    ensures gx * (p * w') == p * (w' * gx)
  {
  }

  lemma {:induction false} PolySumIsConstantTerm(xs: seq<int>, f: Poly, m: nat, q: nat)
    requires IsPrime(q) && Points(xs, q) && |f| <= m <= |xs|
    ensures Cong(PolySum(xs, f, m, m, q), Eval(f, 0), q)
    decreases m
  {
    if m > 0 {
      var p := xs[m - 1];
      RootProductElsewhere(xs, m - 1, p, q);
      var k := Correction(Eval(f, p), 0, RootProduct(xs, m - 1, p), q);
      var h := AddScaled(f, k, RootPoly(xs, m - 1));
      var g := Quotient(h, p);
      ModUnique(0, 0, 0, q);
      EvalAddScaled(f, k, RootPoly(xs, m - 1), p);
      EvalRootPoly(xs, m - 1, p);
      SumStep(xs, f, h, k, m, m - 1, q);
      PolySumIsConstantTerm(xs, g, m - 1, q);
      LastTerm(xs, m, Eval(f, p), q);
      EvalAddScaled(f, k, RootPoly(xs, m - 1), 0);
      EvalRootPoly(xs, m - 1, 0);
      Division(h, p, 0);
      CollectTerms(p, PolySum(xs, f, m, m - 1, q), PolySum(xs, g, m - 1, m - 1, q), Eval(g, 0), Eval(h, p),
                   k * RootProduct(xs, m - 1, 0), q);
    }
  }

  lemma LastTerm(xs: seq<int>, m: nat, fx: int, q: nat)
    requires IsPrime(q) && Points(xs, q) && 0 < m <= |xs|
    requires RootProduct(xs, m - 1, xs[m - 1]) % q != 0
    ensures Weight(xs, m - 1, m, q) * fx
         == -(Correction(fx, 0, RootProduct(xs, m - 1, xs[m - 1]), q) * RootProduct(xs, m - 1, 0))
  {
    ProductsOfLast(xs, m - 1, m - 1);
    var inv := Invert(RootProduct(xs, m - 1, xs[m - 1]), q);
    NegateProduct(RootProduct(xs, m - 1, 0), inv, fx);
  }

  lemma NegateProduct(n: int, inv: int, fx: int)
    ensures (n * inv) * fx == -(((0 - fx) * inv) * n)
  {
  }

  lemma CollectTerms(p: int, sf: int, sg: int, g0: int, hp: int, kn: int, q: nat)
    requires 0 < q && Cong(sf, -p * sg, q) && Cong(sg, g0, q) && hp % q == 0
    ensures Cong(sf - kn, (0 - p) * g0 + hp - kn, q)
  {
    CongScale(-p, sg, g0, q);
    ModUnique(0, 0, 0, q);
    CongAdd(-p * g0, -p * g0, 0, hp, q);
    CongAdd(sf, -p * g0 + hp, -kn, -kn, q);
  }

  lemma {:induction false} SumsAgree(xs: seq<int>, ys: seq<int>, f: Poly, n: nat, q: nat)
    requires IsPrime(q) && Points(xs, q) && n <= |xs| == |ys| && Through(f, xs, ys, q)
    ensures Cong(WeightedSum(xs, ys, n, q), PolySum(xs, f, |xs|, n, q), q)
  {
    if n > 0 {
      SumsAgree(xs, ys, f, n - 1, q);
      var w := Weight(xs, n - 1, |xs|, q);
      CongScale(w, ys[n - 1], Eval(f, xs[n - 1]), q);
      CongAdd(WeightedSum(xs, ys, n - 1, q), PolySum(xs, f, |xs|, n - 1, q),
              w * ys[n - 1], w * Eval(f, xs[n - 1]), q);
    }
  }

  // The interpolation theorem: values of any polynomial with at most as many
  // coefficients as there are points give back its constant term.
  lemma {:induction false} InterpolationRecoversConstant(xs: seq<int>, ys: seq<int>, f: Poly, q: nat)
    requires IsPrime(q) && Points(xs, q) && |xs| == |ys| && |f| <= |xs| && Through(f, xs, ys, q)
    ensures Interpolate(xs, ys, q) == Eval(f, 0) % q
  {
    SumsAgree(xs, ys, f, |xs|, q);
    PolySumIsConstantTerm(xs, f, |xs|, q);
    CongMod(WeightedSum(xs, ys, |xs|, q), q);
  }

  // Without assuming where the shares came from: the loops compute the
  // constant term of the one polynomial of degree below k through the shares.
  lemma {:induction false} InterpolationMeaning(xs: seq<int>, ys: seq<int>, q: nat) returns (p: Poly)
    requires IsPrime(q) && Points(xs, q) && |xs| == |ys|
    ensures Reduced(p, |xs|, q) && Through(p, xs, ys, q)
    ensures forall r: Poly :: Reduced(r, |xs|, q) && Through(r, xs, ys, q) ==> r == p
    ensures Interpolate(xs, ys, q) == Eval(p, 0) % q
  {
    p := ExactlyOnePolynomial(xs, ys, q);
    InterpolationRecoversConstant(xs, ys, p, q);
  }

  // The order in which shares are presented is irrelevant.
  lemma {:induction false} InterpolationOrderFree(
    xs: seq<int>, ys: seq<int>, perm: seq<nat>, xs': seq<int>, ys': seq<int>, q: nat)
    requires IsPrime(q) && Points(xs, q) && Points(xs', q)
    requires |xs| == |ys| == |perm| == |xs'| == |ys'|
    requires forall i :: 0 <= i < |perm| ==> perm[i] < |xs| && xs'[i] == xs[perm[i]] && ys'[i] == ys[perm[i]]
    ensures Interpolate(xs', ys', q) == Interpolate(xs, ys, q)
  {
    var p := InterpolationMeaning(xs, ys, q);
    forall i | 0 <= i < |xs'| ensures Cong(Eval(p, xs'[i]), ys'[i], q) {
      assert Cong(Eval(p, xs[perm[i]]), ys[perm[i]], q);
    }
    InterpolationRecoversConstant(xs', ys', p, q);
  }

  // ----- Fewer shares than the threshold

  // k - 1 shares at nonzero indices are consistent with every candidate
  // secret, and with each of them through exactly one polynomial of degree
  // below k.
  lemma {:induction false} FewerSharesFixNothing(xs: seq<int>, ys: seq<int>, secret: nat, q: nat) returns (p: Poly)
    requires IsPrime(q) && Points(xs, q) && |xs| == |ys| && 0 !in xs && secret < q
    ensures Reduced(p, |xs| + 1, q) && Through(p, xs, ys, q) && p[0] == secret
    ensures forall r: Poly :: Reduced(r, |xs| + 1, q) && Through(r, xs, ys, q) && r[0] == secret ==> r == p
  {
    var xs0, ys0 := [0] + xs, [secret as int] + ys;
    assert Points(xs0, q) by {
      assert forall i :: 1 <= i < |xs0| ==> xs0[i] == xs[i - 1] && xs0[i] in xs;
    }
    p := ExactlyOnePolynomial(xs0, ys0, q);
    forall r: Poly | Reduced(r, |xs| + 1, q)
      ensures Through(r, xs0, ys0, q) <==> Through(r, xs, ys, q) && r[0] == secret
    {
      EvalAtZero(r);
      ModUnique(r[0], 0, r[0], q);
      ModUnique(secret, 0, secret, q);
      if Through(r, xs0, ys0, q) {
        assert Cong(Eval(r, xs0[0]), ys0[0], q);
        forall i | 0 <= i < |xs| ensures Cong(Eval(r, xs[i]), ys[i], q) {
          assert xs0[i + 1] == xs[i] && ys0[i + 1] == ys[i];
        }
      }
    }
  }

  // ----- A tampered share

  lemma {:induction false} SumWithChange(xs: seq<int>, ys: seq<int>, k: nat, y: int, n: nat, q: nat)
    requires IsPrime(q) && Points(xs, q) && n <= |xs| == |ys| && k < |xs|
    ensures WeightedSum(xs, ys[k := y], n, q)
         == WeightedSum(xs, ys, n, q) + if k < n then Weight(xs, k, |xs|, q) * (y - ys[k]) else 0
  {
    if n > 0 {
      SumWithChange(xs, ys, k, y, n - 1, q);
      if k == n - 1 {
        SplitChange(Weight(xs, k, |xs|, q), y, ys[k]);
      }
    }
  }

  lemma SplitChange(w: int, y: int, z: int)
    ensures w * y == w * z + w * (y - z)
  {
  }

  // Replacing one share value changes the reconstructed secret exactly when
  // the new value is a different scalar.
  lemma {:induction false} TamperedShareChangesSecret(xs: seq<int>, ys: seq<int>, k: nat, y: int, q: nat)
    requires IsPrime(q) && Points(xs, q) && |xs| == |ys| && 0 !in xs && k < |xs|
    ensures Interpolate(xs, ys[k := y], q) == Interpolate(xs, ys, q) <==> Cong(y, ys[k], q)
  {
    SumWithChange(xs, ys, k, y, |xs|, q);
    var w, s := Weight(xs, k, |xs|, q), WeightedSum(xs, ys, |xs|, q);
    forall j | 0 <= j < |xs| ensures 0 < xs[j] < q { assert xs[j] in xs; }
    NumeratorNonzero(xs, k, |xs|, q);
    DenominatorInvertible(xs, k, |xs|, q);
    InverseNonzero(Denominator(xs, k, |xs|), q);
    NoZeroDivisors(Numerator(xs, k, |xs|), Invert(Denominator(xs, k, |xs|), q), q);
    NoZeroDivisors(w, y - ys[k], q);
    CongSub(s + w * (y - ys[k]), s, q);
    CongSub(y, ys[k], q);
  }

  lemma InverseNonzero(a: int, q: nat)
    requires IsPrime(q) && a % q != 0
    ensures Invert(a, q) % q != 0
  {
    NoZeroDivisors(a, Invert(a, q), q);
  }
}
