// Runs that call the two halves of a rotation directly. The second half takes
// any request, in any state: what the approvals of the first half do not cover
// is shown here on concrete runs.
module DirectRotation {
  import opened Bytes
  import opened Governance
  import opened Lifecycle
  import opened LifecycleRuns
  import opened Names
  import opened Outcome
  import opened Resharing
  import opened ResharingExamples

  const GUARDIAN: Name := [103]

  function TermsFor(key: Bytes, version: nat, names: seq<Name>): Terms {
    Terms(1, Zeros(20), version, names, 2, GUARDIAN, [], 0, 1, MIN_TIMELOCK_SECONDS, key)
  }

  lemma RunSnoc(c: Crypto, ops: seq<Op>, op: Op)
    ensures Run(c, ops + [op]) == Step(c, Run(c, ops), op).next
  {
    assert (ops + [op])[..|ops|] == ops;
  }

  lemma ProposeStep(c: Crypto, ops: seq<Op>, t: Terms) returns (ops': seq<Op>)
    requires Initiate(t, 1).Ok?
    ensures ops' == ops + [ProposeOp(t, 1)]
    ensures var s := Run(c, ops);
            Run(c, ops') == s.(requests := s.requests + [Request(t, None, [], Pending)])
  {
    ops' := ops + [ProposeOp(t, 1)];
    RunSnoc(c, ops, ProposeOp(t, 1));
  }

  // The one approval that the quorum of these requests takes.
  lemma ApproveStep(c: Crypto, ops: seq<Op>, i: nat, t: Terms) returns (ops': seq<Op>)
    requires i < |Run(c, ops).requests| && Run(c, ops).requests[i] == Request(t, None, [], Pending)
    requires t.quorum == 1 && t.timelock == MIN_TIMELOCK_SECONDS
    ensures ops' == ops + [RequestOp(i, ApproveOp(GUARDIAN, 0))]
    ensures var s := Run(c, ops);
            var approved := Request(t, Some(MIN_TIMELOCK_SECONDS), [GUARDIAN], QuorumReached);
            Run(c, ops') == s.(requests := s.requests[i := approved])
  {
    ops' := ops + [RequestOp(i, ApproveOp(GUARDIAN, 0))];
    RunSnoc(c, ops, RequestOp(i, ApproveOp(GUARDIAN, 0)));
    assert [] + [GUARDIAN] == [GUARDIAN];
  }

  lemma BeginStep(c: Crypto, ops: seq<Op>, i: nat) returns (ops': seq<Op>)
    requires i < |Run(c, ops).requests|
    requires BeginRotation(Run(c, ops).key, Run(c, ops).requests[i], MIN_TIMELOCK_SECONDS).result.Ok?
    ensures ops' == ops + [BeginOp(i, MIN_TIMELOCK_SECONDS)]
    ensures var s := Run(c, ops);
            Step(c, s, BeginOp(i, MIN_TIMELOCK_SECONDS)).ok
            && Run(c, ops') == s.(key := s.key.(state := Rotating, locked := true))
  {
    ops' := ops + [BeginOp(i, MIN_TIMELOCK_SECONDS)];
    RunSnoc(c, ops, BeginOp(i, MIN_TIMELOCK_SECONDS));
  }

  lemma ApplyWilling(c: Crypto, l: KeyView, t: Terms)
    requires KeyInvariant(c, l) && l.state == Rotating && 0 < t.threshold <= |t.newSet|
    ensures var o := Willing(OneKey(l.material.value.groupKey.verifyingKey));
            var k := ApplyRotation(c, l, t, t.threshold, o);
            && k.result.Ok? && k.next.state == Active && !k.next.locked && k.next.version == l.version + 1
            && k.next.groupKeyBytes == l.groupKeyBytes && k.next.material.Some?
            && k.next.material.value.groupKey == l.material.value.groupKey
            && PartySeq(k.next.material.value.participants) == NewParties(l.material.value.participants, t.newSet)
  {
    var m := l.material.value;
    var o := Willing(OneKey(m.groupKey.verifyingKey));
    WillingRotates(m, t.newSet, t.threshold, OneKey(m.groupKey.verifyingKey), c.address);
    RotationParties(m, t.newSet, t.threshold, o, c.address);
  }

  // A direct application of request i, whatever its state.
  lemma ApplyStep(c: Crypto, ops: seq<Op>, i: nat) returns (ops': seq<Op>)
    requires var s := Run(c, ops);
             && i < |s.requests| && s.key.state == Rotating && s.key.material.Some?
             && 0 < s.requests[i].terms.threshold <= |s.requests[i].terms.newSet|
    ensures var s, s' := Run(c, ops), Run(c, ops');
            var keys := OneKey(s.key.material.value.groupKey.verifyingKey);
            var op := ApplyOp(i, s.requests[i].terms.threshold, Willing(keys));
            && ops' == ops + [op] && RotatesKey(c, s, op) && s'.requests == s.requests
            && s'.key.state == Active && !s'.key.locked && s'.key.version == s.key.version + 1
            && s'.key.groupKeyBytes == s.key.groupKeyBytes && s'.key.material.Some?
            && s'.key.material.value.groupKey == s.key.material.value.groupKey
            && PartySeq(s'.key.material.value.participants)
               == NewParties(s.key.material.value.participants, s.requests[i].terms.newSet)
  {
    var s := Run(c, ops);
    AlwaysInvariant(c, ops);
    var op := ApplyOp(i, s.requests[i].terms.threshold, Willing(OneKey(s.key.material.value.groupKey.verifyingKey)));
    ops' := ops + [op];
    RunSnoc(c, ops, op);
    ApplyWilling(c, s.key, s.requests[i].terms);
  }

  lemma CreateStep(c: Crypto, run: DkgRun) returns (ops: seq<Op>)
    ensures ops == [DkgOp(Some(run))] && Run(c, ops) == System(Dkg(c, INITIAL_KEY, Some(run)).next, [])
  {
    ops := [DkgOp(Some(run))];
    RunSnoc(c, [], DkgOp(Some(run)));
    assert [] + [DkgOp(Some(run))] == ops;
  }

  // A created key and two requests, the first approved.
  lemma Prepared(c: Crypto, run: DkgRun, t: Terms, u: Terms) returns (ops: seq<Op>)
    requires t == TermsFor(c.compressed(run.key), 1, [Alias(0), Alias(1)])
    requires u == TermsFor(c.compressed(run.key), 1, [Alias(0), Alias(2)])
    ensures |ops| == 4
    ensures Run(c, ops) == System(Dkg(c, INITIAL_KEY, Some(run)).next,
                                  [Request(t, Some(MIN_TIMELOCK_SECONDS), [GUARDIAN], QuorumReached),
                                   Request(u, None, [], Pending)])
  {
    ops := CreateStep(c, run);
    ops := ProposeStep(c, ops, t);
    ops := ApproveStep(c, ops, 0, t);
    ops := ProposeStep(c, ops, u);
  }

  // The first request has begun a rotation.
  lemma Opening(c: Crypto, run: DkgRun, t: Terms, u: Terms) returns (ops: seq<Op>)
    requires t == TermsFor(c.compressed(run.key), 1, [Alias(0), Alias(1)])
    requires u == TermsFor(c.compressed(run.key), 1, [Alias(0), Alias(2)])
    ensures |ops| == 5 && ops[4] == BeginOp(0, MIN_TIMELOCK_SECONDS)
    ensures At(c, ops, 4).key == Dkg(c, INITIAL_KEY, Some(run)).next && Step(c, At(c, ops, 4), ops[4]).ok
    ensures var key := Dkg(c, INITIAL_KEY, Some(run)).next;
            Run(c, ops) == System(key.(state := Rotating, locked := true),
                                  [Request(t, Some(MIN_TIMELOCK_SECONDS), [GUARDIAN], QuorumReached),
                                   Request(u, None, [], Pending)])
  {
    var prepared := Prepared(c, run, t, u);
    ops := BeginStep(c, prepared, 0);
    assert ops[..4] == prepared;
  }

  lemma BeganInOpening(c: Crypto, ops: seq<Op>, opening: seq<Op>)
    requires |opening| == 5 && opening[4].BeginOp? && Step(c, At(c, opening, 4), opening[4]).ok
    requires Run(c, opening).key == At(c, opening, 4).key.(state := Rotating, locked := true)
    requires |ops| > 5 && ops[..5] == opening
    ensures BeganAt(c, ops, 4, 5)
  {
    assert ops[..4] == opening[..4] && ops[4] == opening[4];
    BeganJustNow(c, ops, 4);
  }

  lemma ThreeOldParties(olds: seq<Participant>)
    requires |olds| == 3 && olds[0].party == 0 && olds[1].party == 1 && olds[2].party == 2
    ensures NewParties(olds, [Alias(0), Alias(1)]) == [0, 1] && NewParties(olds, [Alias(0), Alias(2)]) == [0, 2]
  {
    PartyOfPosition(olds, [Alias(0), Alias(1)], 0, 0);
    PartyOfPosition(olds, [Alias(0), Alias(1)], 1, 1);
    PartyOfPosition(olds, [Alias(0), Alias(2)], 0, 0);
    PartyOfPosition(olds, [Alias(0), Alias(2)], 1, 2);
  }

  // A request without a single approval rotates the key: begun with request 0,
  // the rotation is given request 1. Its participants are installed, the
  // version goes up, and neither request changes.
  lemma UnapprovedRequestRotates(c: Crypto, run: DkgRun) returns (ops: seq<Op>)
    ensures |ops| == 6 && ops[4].BeginOp? && ops[4].req == 0 && ops[5].ApplyOp? && ops[5].req == 1
    ensures RotatesAt(c, ops, 5) && BeganAt(c, ops, 4, 5)
    ensures var before, after := At(c, ops, 5), Run(c, ops);
            && |before.requests| == 2 && before.requests[1].status == Pending && before.requests[1].approvals == []
            && before.requests[0].terms.newSet == [Alias(0), Alias(1)]
            && before.requests[1].terms.newSet == [Alias(0), Alias(2)]
            && after.requests == before.requests
            && before.key.version == 1 && after.key.version == 2 && after.key.state == Active
            && after.key.material.Some? && PartySeq(after.key.material.value.participants) == [0, 2]
            && before.key.material.Some?
            && NewParties(before.key.material.value.participants, before.requests[0].terms.newSet) == [0, 1]
  {
    var key := c.compressed(run.key);
    var t, u := TermsFor(key, 1, [Alias(0), Alias(1)]), TermsFor(key, 1, [Alias(0), Alias(2)]);
    var opening := Opening(c, run, t, u);
    ops := ApplyStep(c, opening, 1);
    assert ops[..5] == opening;
    ThreeOldParties(SetupMaterial(c, run).participants);
    BeganInOpening(c, ops, opening);
  }

  // Without ties a request can even be installed twice: both rotations are
  // begun with approved requests, 0 and 2, and given the pending request 1.
  lemma RequestAppliedTwice(c: Crypto, run: DkgRun) returns (ops: seq<Op>)
    ensures |ops| == 10 && ops[5].ApplyOp? && ops[9].ApplyOp? && ops[5].req == ops[9].req == 1
    ensures RotatesAt(c, ops, 5) && RotatesAt(c, ops, 9)
    ensures |Run(c, ops).requests| == 3 && Run(c, ops).requests[1].status == Pending && Run(c, ops).key.version == 3
  {
    var key := c.compressed(run.key);
    var t, u := TermsFor(key, 1, [Alias(0), Alias(1)]), TermsFor(key, 1, [Alias(0), Alias(2)]);
    var w := TermsFor(key, 2, [Alias(0), Alias(1)]);
    var opening := Opening(c, run, t, u);
    var first := ApplyStep(c, opening, 1);
    AlwaysInvariant(c, first);
    ops := ProposeStep(c, first, w);
    ops := ApproveStep(c, ops, 2, w);
    ops := BeginAgain(c, ops, 2);
    var again := ops;
    ops := ApplyStep(c, again, 1);
    assert ops[..9] == again && ops[..5] == opening;
  }

  lemma BeginAgain(c: Crypto, ops: seq<Op>, i: nat) returns (ops': seq<Op>)
    requires var s := Run(c, ops);
             && s.key.state == Active && s.key.material.Some? && i < |s.requests|
             && s.requests[i] == Request(TermsFor(c.compressed(s.key.material.value.groupKey.verifyingKey),
                                                  s.key.version, [Alias(0), Alias(1)]),
                                         Some(MIN_TIMELOCK_SECONDS), [GUARDIAN], QuorumReached)
    ensures ops' == ops + [BeginOp(i, MIN_TIMELOCK_SECONDS)]
    ensures Run(c, ops') == Run(c, ops).(key := Run(c, ops).key.(state := Rotating, locked := true))
  {
    var s := Run(c, ops);
    AlwaysInvariant(c, ops);
    RotationSucceedsExactlyWhen(c, s.key, s.requests[i], MIN_TIMELOCK_SECONDS,
                                Willing(OneKey(s.key.material.value.groupKey.verifyingKey)));
    ops' := BeginStep(c, ops, i);
  }

  lemma CancelStep(c: Crypto, ops: seq<Op>, i: nat) returns (ops': seq<Op>)
    requires i < |Run(c, ops).requests| && IsLive(Run(c, ops).requests[i].status)
    ensures ops' == ops + [RequestOp(i, CancelOp)]
    ensures var s := Run(c, ops);
            Run(c, ops') == s.(requests := s.requests[i := s.requests[i].(status := Cancelled)])
  {
    ops' := ops + [RequestOp(i, CancelOp)];
    RunSnoc(c, ops, RequestOp(i, CancelOp));
  }

  // Operations on requests leave a rotation begun.
  lemma BeganThroughRequest(c: Crypto, ops: seq<Op>, j: nat, k: nat)
    requires BeganAt(c, ops, j, k) && k < |ops| && ops[k].RequestOp?
    ensures BeganAt(c, ops, j, k + 1)
  {
    AtNext(c, ops, k);
    BeganStill(c, ops, j, k);
  }

  // Nor is the request looked at again once rotation began: cancelled in
  // between, it rotates all the same.
  lemma CancelledRequestRotates(c: Crypto, run: DkgRun) returns (ops: seq<Op>)
    ensures |ops| == 7 && ops[4].BeginOp? && ops[4].req == 0 && ops[6].ApplyOp? && ops[6].req == 0
    ensures BeganAt(c, ops, 4, 6) && RotatesAt(c, ops, 6)
    ensures |At(c, ops, 6).requests| == 2 && At(c, ops, 6).requests[0].status == Cancelled
    ensures Run(c, ops).requests == At(c, ops, 6).requests && Run(c, ops).key.version == 2
  {
    var key := c.compressed(run.key);
    var t, u := TermsFor(key, 1, [Alias(0), Alias(1)]), TermsFor(key, 1, [Alias(0), Alias(2)]);
    var opening := Opening(c, run, t, u);
    var cancelled := CancelStep(c, opening, 0);
    ops := ApplyStep(c, cancelled, 0);
    assert ops[..6] == cancelled && ops[..5] == opening;
    BeganInOpening(c, ops, opening);
    BeganThroughRequest(c, ops, 4, 5);
  }
}
