// Distributed key generation: every participant contributes a random line and
// each share is the sum of those lines at the participant's index. The drawn
// scalars are a parameter.
module Keygen {
  import opened Bytes
  import opened Outcome
  import opened PrimeField
  import opened Polynomials
  import opened Residues
  import opened Session
  import opened Shamir
  import opened Signature

  datatype KeyMaterial = KeyMaterial(shares: seq<ParticipantShare>, groupKey: Key, threshold: nat, total: nat)

  // One participant's draw: constant term and slope.
  datatype Draw = Draw(a: nat, b: nat)

  function OrOne(v: nat): nat {
    if v == 0 then 1 else v
  }

  // Sums of the first n constant terms and slopes, zero draws replaced by one.
  function SumA(draws: seq<Draw>, n: nat): nat
    requires n <= |draws|
  {
    if n == 0 then 0 else SumA(draws, n - 1) + OrOne(draws[n - 1].a)
  }

  function SumB(draws: seq<Draw>, n: nat): nat
    requires n <= |draws|
  {
    if n == 0 then 0 else SumB(draws, n - 1) + OrOne(draws[n - 1].b)
  }

  // The secret line: nobody computes its slope.
  ghost function SecretLine(draws: seq<Draw>): Poly {
    [SumA(draws, |draws|) as int, SumB(draws, |draws|)]
  }

  lemma EvalLine(a: int, b: int, x: int)
    ensures Eval([a, b], x) == a + x * b
  {
    assert [a, b][1..] == [b] && [b][1..] == [];
    assert Eval([b], x) == b;
  }

  ghost predicate DealtFrom(shares: seq<ParticipantShare>, draws: seq<Draw>, q: nat)
    requires 0 < q
  {
    forall j :: 0 <= j < |shares| ==>
      shares[j].index == j + 1 && shares[j].secretShare < q
      && Cong(shares[j].secretShare, Eval(SecretLine(draws), j + 1), q)
  }

  ghost predicate ValidDraws(draws: seq<Draw>, q: nat) {
    forall i :: 0 <= i < |draws| ==> draws[i].a < q && draws[i].b < q
  }

  // What dealing establishes.
  ghost predicate Dealt(draws: seq<Draw>, q: nat, x: nat, shares: seq<ParticipantShare>)
    requires 0 < q
  {
    x < q && Cong(x, SumA(draws, |draws|), q) && |shares| == |draws| && DealtFrom(shares, draws, q)
  }

  // The loops of key generation, for any number of participants whose indices
  // fit a byte: x is the group secret, share j + 1 the secret line there.
  method DealShares(draws: seq<Draw>, q: nat) returns (x: nat, shares: seq<ParticipantShare>)
    requires IsPrime(q) && q > 255 && |draws| <= 255 && ValidDraws(draws, q)
    ensures Dealt(draws, q, x, shares)
  {
    var n := |draws|;
    var a: seq<nat>, b: seq<nat> := [], [];
    for i := 0 to n
      invariant |a| == |b| == i
      invariant forall k :: 0 <= k < i ==> a[k] == OrOne(draws[k].a) && b[k] == OrOne(draws[k].b)
    {
      a := a + [OrOne(draws[i].a)];
      b := b + [OrOne(draws[i].b)];
    }
    x := 0;
    for i := 0 to n
      invariant x < q && Cong(x, SumA(draws, i), q)
    {
      CongAdd(x, SumA(draws, i), a[i], a[i], q);
      CongMod(x + a[i], q);
      x := (x + a[i]) % q;
    }
    shares := [];
    for j := 1 to n + 1
      invariant |shares| == j - 1 && DealtFrom(shares, draws, q)
    {
      var shareScalar: nat := 0;
      for i := 0 to n
        invariant shareScalar < q && Cong(shareScalar, SumA(draws, i) + j * SumB(draws, i), q)
      {
        AddLine(shareScalar, SumA(draws, i), SumB(draws, i), a[i], b[i], j, q);
        shareScalar := (shareScalar + (a[i] + b[i] * j)) % q;
      }
      EvalLine(SumA(draws, n), SumB(draws, n), j);
      shares := shares + [ParticipantShare(j, shareScalar)];
    }
  }

  lemma AddLine(s: int, sa: int, sb: int, a: int, b: int, j: int, q: nat)
    requires 0 < q && Cong(s, sa + j * sb, q)
    ensures Cong((s + (a + b * j)) % q, (sa + a) + j * (sb + b), q)
  {
    CongAdd(s, sa + j * sb, a + b * j, a + b * j, q);
    CongMod(s + (a + b * j), q);
    assert j * (sb + b) == j * sb + b * j;
  }

  // ----- What is dealt, in terms of the draws alone

  // For nonzero draws the secret is the sum of the constant terms and share j
  // the sum of the drawn lines at j, for any number of participants.
  function PlainA(draws: seq<Draw>): nat {
    if draws == [] then 0 else PlainA(draws[..|draws| - 1]) + draws[|draws| - 1].a
  }

  function PlainB(draws: seq<Draw>): nat {
    if draws == [] then 0 else PlainB(draws[..|draws| - 1]) + draws[|draws| - 1].b
  }

  predicate Nonzero(draws: seq<Draw>) {
    forall i :: 0 <= i < |draws| ==> draws[i].a != 0 && draws[i].b != 0
  }

  lemma {:induction false} SumsArePlain(draws: seq<Draw>, n: nat)
    requires n <= |draws| && Nonzero(draws)
    ensures SumA(draws, n) == PlainA(draws[..n]) && SumB(draws, n) == PlainB(draws[..n])
  {
    if n > 0 {
      SumsArePlain(draws, n - 1);
      assert draws[..n][..n - 1] == draws[..n - 1];
    }
  }

  lemma {:induction false} DealtFromNonzero(draws: seq<Draw>, q: nat, x: nat, shares: seq<ParticipantShare>)
    requires 0 < q && Nonzero(draws) && Dealt(draws, q, x, shares)
    ensures x == PlainA(draws) % q && |shares| == |draws|
    ensures forall j :: 0 <= j < |shares| ==>
              shares[j].index == j + 1 && shares[j].secretShare == (PlainA(draws) + (j + 1) * PlainB(draws)) % q
  {
    SumsArePlain(draws, |draws|);
    assert draws[..|draws|] == draws;
    ModUnique(x, 0, x, q);
    forall j | 0 <= j < |shares|
      ensures shares[j].secretShare == (PlainA(draws) + (j + 1) * PlainB(draws)) % q
    {
      ShareOnLine(shares[j].secretShare, PlainA(draws), PlainB(draws), j + 1, q);
    }
  }

  lemma ShareOnLine(y: nat, a: int, b: int, j: int, q: nat)
    requires y < q && Cong(y, Eval([a, b], j), q)
    ensures y == (a + j * b) % q
  {
    EvalLine(a, b, j);
    ModUnique(y, 0, y, q);
  }

  lemma ThreeSums(draws: seq<Draw>)
    requires |draws| == 3
    ensures PlainA(draws) == draws[0].a + draws[1].a + draws[2].a
    ensures PlainB(draws) == draws[0].b + draws[1].b + draws[2].b
  {
    var two, one := draws[..2], draws[..1];
    assert two[..1] == one && one[..0] == [];
    assert PlainA(one) == draws[0].a && PlainB(one) == draws[0].b;
    assert PlainA(two) == PlainA(one) + draws[1].a && PlainB(two) == PlainB(one) + draws[1].b;
  }

  // The prototype's three participants, written out.
  lemma {:induction false} ThreeDealt(draws: seq<Draw>, q: nat, x: nat, shares: seq<ParticipantShare>)
    requires 0 < q && |draws| == 3 && Nonzero(draws) && Dealt(draws, q, x, shares)
    ensures var a, b := draws[0].a + draws[1].a + draws[2].a, draws[0].b + draws[1].b + draws[2].b;
            && x == a % q && |shares| == 3
            && shares[0].index == 1 && shares[0].secretShare == (a + b) % q
            && shares[1].index == 2 && shares[1].secretShare == (a + 2 * b) % q
            && shares[2].index == 3 && shares[2].secretShare == (a + 3 * b) % q
  {
    DealtFromNonzero(draws, q, x, shares);
    ThreeSums(draws);
  }

  // A zero draw gives what a draw of one gives.
  lemma {:induction false} ZeroDrawsAsOne(draws: seq<Draw>, i: nat, q: nat, x: nat, shares: seq<ParticipantShare>)
    requires 0 < q && i < |draws|
    ensures Dealt(draws[i := draws[i].(a := 0)], q, x, shares) <==> Dealt(draws[i := draws[i].(a := 1)], q, x, shares)
    ensures Dealt(draws[i := draws[i].(b := 0)], q, x, shares) <==> Dealt(draws[i := draws[i].(b := 1)], q, x, shares)
  {
    SumsWithChange(draws, i, draws[i].(a := 0), |draws|);
    SumsWithChange(draws, i, draws[i].(a := 1), |draws|);
    SumsWithChange(draws, i, draws[i].(b := 0), |draws|);
    SumsWithChange(draws, i, draws[i].(b := 1), |draws|);
  }

  lemma {:induction false} SumsWithChange(draws: seq<Draw>, i: nat, d: Draw, n: nat)
    requires i < |draws| && n <= |draws|
    ensures SumA(draws[i := d], n) == SumA(draws, n) + if i < n then OrOne(d.a) - OrOne(draws[i].a) else 0
    ensures SumB(draws[i := d], n) == SumB(draws, n) + if i < n then OrOne(d.b) - OrOne(draws[i].b) else 0
  {
    if n > 0 { SumsWithChange(draws, i, d, n - 1); }
  }

  // With everything else fixed, a different nonzero constant term of any one
  // participant gives a different secret.
  lemma {:induction false} EveryConstantCounts(draws: seq<Draw>, i: nat, a: nat, q: nat,
                                               x: nat, shares: seq<ParticipantShare>,
                                               x': nat, shares': seq<ParticipantShare>)
    requires 0 < q && i < |draws| && 0 < draws[i].a < q && 0 < a < q && a != draws[i].a
    requires Dealt(draws, q, x, shares) && Dealt(draws[i := draws[i].(a := a)], q, x', shares')
    ensures x != x'
  {
    SumsWithChange(draws, i, draws[i].(a := a), |draws|);
    ShiftDiffers(SumA(draws, |draws|), a - draws[i].a, q);
  }

  // And a different nonzero slope a different share for every participant, the
  // secret staying the same.
  lemma {:induction false} EverySlopeCounts(draws: seq<Draw>, i: nat, b: nat, q: nat,
                                            x: nat, shares: seq<ParticipantShare>,
                                            x': nat, shares': seq<ParticipantShare>, j: nat)
    requires IsPrime(q) && i < |draws| < q && 0 < draws[i].b < q && 0 < b < q && b != draws[i].b && j < |draws|
    requires Dealt(draws, q, x, shares) && Dealt(draws[i := draws[i].(b := b)], q, x', shares')
    ensures x == x' && shares[j].secretShare != shares'[j].secretShare
  {
    var draws' := draws[i := draws[i].(b := b)];
    var sa, sb, d := SumA(draws, |draws|), SumB(draws, |draws|), b - draws[i].b;
    SumsWithChange(draws, i, draws[i].(b := b), |draws|);
    ModUnique(x, 0, x, q);
    ModUnique(x', 0, x', q);
    EvalLine(sa, sb, j + 1);
    EvalLine(sa, sb + d, j + 1);
    SlopeDiffers(sa, sb, d, j + 1, q);
  }

  lemma ShiftDiffers(s: int, d: int, q: int)
    requires 0 < q && d != 0 && -q < d < q
    ensures !Cong(s, s + d, q)
  {
    CongSub(s + d, s, q);
    if 0 < d { ModUnique(d, 0, d, q); } else { ModUnique(d, -1, q + d, q); }
  }

  lemma SlopeDiffers(sa: int, sb: int, d: int, j: nat, q: nat)
    requires IsPrime(q) && d != 0 && 0 - q < d < q && 0 < j < q
    ensures !Cong(sa + j * sb, sa + j * (sb + d), q)
  {
    assert sa + j * (sb + d) == (sa + j * sb) + j * d;
    CongSub((sa + j * sb) + j * d, sa + j * sb, q);
    NoZeroDivisors(j, d, q);
    ModUnique(j, 0, j, q);
    if 0 < d { ModUnique(d, 0, d, q); } else { ModUnique(d, -1, q + d, q); }
  }

  // The entry point, asserts included. None is a panic: a parameter assertion,
  // or a zero group secret. The closing debug assertion never fires.
  method DistributedKeygen(n: nat, t: nat, draws: seq<Draw>, e: Ecdsa, q: nat) returns (r: Option<KeyMaterial>)
    requires IsPrime(q) && q > 255 && |draws| == n && ValidDraws(draws, q)
    ensures r.Some? <==> n == 3 && t == 2 && SumA(draws, n) % q != 0
    ensures r.Some? ==>
      && r.value.threshold == t && r.value.total == n == |r.value.shares|
      && Dealt(draws, q, SumA(draws, n) % q, r.value.shares)
      && r.value.groupKey == e.publicKey(SumA(draws, n) % q)
      && (Nonzero(draws) ==> r.value.groupKey == e.publicKey(PlainA(draws) % q))
  {
    if !(2 <= t <= n) { return None; }
    if !(n == 3 && t == 2) { return None; }
    var x, shares := DealShares(draws, q);
    ModUnique(x, 0, x, q);
    if x == 0 { return None; }
    var check := LagrangeInterpolateAtZero(shares[0..2], q);
    SubsetRecovers(shares, draws, shares[0..2], q);
    assert check == Some(x);
    if Nonzero(draws) { DealtFromNonzero(draws, q, x, shares); }
    r := Some(KeyMaterial(shares, e.publicKey(x), t, n));
  }

  // A choice of dealt shares, in any order.
  ghost predicate DrawnFrom(subset: seq<ParticipantShare>, shares: seq<ParticipantShare>) {
    Distinct(Indices(subset)) && forall i :: 0 <= i < |subset| ==> subset[i] in shares
  }

  // Any two or more dealt shares, in any order, interpolate to the sum of the
  // contributed constant terms.
  lemma {:induction false} SubsetRecovers(shares: seq<ParticipantShare>, draws: seq<Draw>,
                                          subset: seq<ParticipantShare>, q: nat)
    requires IsPrime(q) && q > 255 && DealtFrom(shares, draws, q)
    requires DrawnFrom(subset, shares) && 2 <= |subset|
    ensures Points(Indices(subset), q)
    ensures Interpolate(Indices(subset), Secrets(subset), q) == SumA(draws, |draws|) % q
    ensures Nonzero(draws) ==> Interpolate(Indices(subset), Secrets(subset), q) == PlainA(draws) % q
  {
    if Nonzero(draws) {
      SumsArePlain(draws, |draws|);
      assert draws[..|draws|] == draws;
    }
    SharePoints(subset, q);
    var xs, ys, f := Indices(subset), Secrets(subset), SecretLine(draws);
    forall i | 0 <= i < |xs| ensures Cong(Eval(f, xs[i]), ys[i], q) {
      assert subset[i] in shares;
      var j :| 0 <= j < |shares| && shares[j] == subset[i];
      assert Cong(shares[j].secretShare, Eval(f, j + 1), q);
    }
    InterpolationRecoversConstant(xs, ys, f, q);
    EvalAtZero(f);
  }

  // Hence every authorised subset in every order signs alike, and under a
  // library that keeps its promises with success under the group key.
  lemma {:induction false} AuthorisedSubsetsSignAlike(
    shares: seq<ParticipantShare>, draws: seq<Draw>, one: seq<ParticipantShare>, two: seq<ParticipantShare>,
    binding: SessionBinding, sessionId: Bytes, threshold: nat, e: Ecdsa, keccak: Bytes -> Bytes, q: nat)
    requires IsPrime(q) && q > 255 && DealtFrom(shares, draws, q) && Faithful(e, q)
    requires SumA(draws, |draws|) % q != 0
    requires DrawnFrom(one, shares) && DrawnFrom(two, shares) && 2 <= threshold
    requires threshold <= |one| && threshold <= |two| && keccak(SessionPreimage(binding)) == sessionId
    ensures var groupKey := e.publicKey(SumA(draws, |draws|) % q);
            var outcome := SignOutcomeOf(one, groupKey, binding, sessionId, threshold, e, keccak, q);
            outcome.Signed? && outcome == SignOutcomeOf(two, groupKey, binding, sessionId, threshold, e, keccak, q)
  {
    var x := SumA(draws, |draws|) % q;
    SubsetRecovers(shares, draws, one, q);
    SubsetRecovers(shares, draws, two, q);
    SignsExactlyWhenReconstructed(one, x, binding, sessionId, threshold, e, keccak, q);
  }

  // One dealt share is consistent with every group secret, through exactly
  // one line.
  lemma {:induction false} OneShareFixesNothing(share: ParticipantShare, secret: nat, q: nat) returns (line: Poly)
    requires IsPrime(q) && q > 255 && share.index != 0 && secret < q
    ensures Reduced(line, 2, q) && line[0] == secret && Cong(Eval(line, share.index), share.secretShare, q)
    ensures forall r: Poly :: Reduced(r, 2, q) && r[0] == secret && Cong(Eval(r, share.index), share.secretShare, q)
              ==> r == line
  {
    var xs, ys := [share.index as int], [share.secretShare as int];
    line := FewerSharesFixNothing(xs, ys, secret, q);
    assert Through(line, xs, ys, q) ==> Cong(Eval(line, xs[0]), ys[0], q);
  }

  // Interpolating a single dealt share misses the group secret, unless the
  // contributed slopes happen to cancel.
  lemma {:induction false} SingleShareMisses(shares: seq<ParticipantShare>, draws: seq<Draw>, k: nat, q: nat)
    requires IsPrime(q) && q > 255 && DealtFrom(shares, draws, q) && k < |shares|
    ensures Points(Indices([shares[k]]), q)
    ensures Interpolate(Indices([shares[k]]), Secrets([shares[k]]), q) == SumA(draws, |draws|) % q
       <==> SumB(draws, |draws|) % q == 0
  {
    var one := [shares[k]];
    SharePoints(one, q);
    OnePoint(Indices(one), Secrets(one), q);
    EvalLine(SumA(draws, |draws|), SumB(draws, |draws|), k + 1);
    MissesUnlessFlat(SumA(draws, |draws|), SumB(draws, |draws|), k + 1, q);
  }

  // A single point interpolates to its own value.
  lemma OnePoint(xs: seq<int>, ys: seq<int>, q: nat)
    requires IsPrime(q) && Points(xs, q) && |xs| == |ys| == 1
    ensures Interpolate(xs, ys, q) == ys[0] % q
  {
    var f := [ys[0]];
    assert f[1..] == [];
    InterpolationRecoversConstant(xs, ys, f, q);
  }

  lemma MissesUnlessFlat(a: int, b: int, i: nat, q: nat)
    requires IsPrime(q) && 0 < i < q
    ensures Cong(a + i * b, a, q) <==> b % q == 0
  {
    CongSub(a + i * b, a, q);
    NoZeroDivisors(i, b, q);
    ModUnique(i, 0, i, q);
  }
}
