// Whole runs of one key and any number of rotation requests: arbitrary
// operations in arbitrary order with arbitrary clock readings and protocol
// outcomes.
module LifecycleRuns {
  import opened Governance
  import opened Names
  import opened Lifecycle
  import opened Outcome
  import opened Resharing

  datatype System = System(key: KeyView, requests: seq<Request>)

  datatype Op =
    | DkgOp(run: Option<DkgRun>)
    | RefreshOp(o: Oracle)
    | RotateOp(req: nat, now: nat, o: Oracle)
    | RetireOp
    | ProposeOp(terms: Terms, guardians: nat)
    | RequestOp(req: nat, action: RequestOp)
    // The two halves of a rotation called directly.
    | BeginOp(req: nat, now: nat)
    | ApplyOp(req: nat, threshold: nat, o: Oracle)

  datatype Moved = Moved(ok: bool, next: System)

  ghost predicate SystemInvariant(c: Crypto, s: System) {
    KeyInvariant(c, s.key) && forall i :: 0 <= i < |s.requests| ==> RequestInvariant(s.requests[i])
  }

  ghost function Step(c: Crypto, s: System, op: Op): Moved
    requires HasParticipants(s.key)
  {
    match op
    case DkgOp(run) =>
      var k := Dkg(c, s.key, run);
      Moved(k.result.Ok?, s.(key := k.next))
    case RefreshOp(o) =>
      var k := Refresh(c, s.key, o);
      Moved(k.result.Ok?, s.(key := k.next))
    case RotateOp(i, now, o) =>
      if i >= |s.requests| then Moved(false, s)
      else
        var k := RotateWithRequest(c, s.key, s.requests[i], now, o);
        Moved(k.result.Ok?, System(k.key, s.requests[i := k.request]))
    case RetireOp =>
      var k := Retire(s.key);
      Moved(k.result.Ok?, s.(key := k.next))
    case ProposeOp(t, guardians) =>
      (match Initiate(t, guardians)
       case Ok(r) => Moved(true, s.(requests := s.requests + [r]))
       case Err(_) => Moved(false, s))
    case RequestOp(i, action) =>
      if i >= |s.requests| then Moved(false, s)
      else
        var r := RequestStep(s.requests[i], action);
        Moved(r.result.Ok?, s.(requests := s.requests[i := r.next]))
    case BeginOp(i, now) =>
      if i >= |s.requests| then Moved(false, s)
      else
        var k := BeginRotation(s.key, s.requests[i], now);
        Moved(k.result.Ok?, s.(key := k.next))
    case ApplyOp(i, t, o) =>
      if i >= |s.requests| then Moved(false, s)
      else
        var k := ApplyRotation(c, s.key, s.requests[i].terms, t, o);
        Moved(k.result.Ok?, s.(key := k.next))
  }

  // A rotation of the key happened in this step.
  ghost predicate RotatesKey(c: Crypto, s: System, op: Op)
    requires HasParticipants(s.key)
  {
    (op.RotateOp? || op.ApplyOp?) && Step(c, s, op).ok
  }

  // How a request may look one step later.
  predicate RequestMoved(r: Request, r': Request) {
    && r'.terms == r.terms
    && (r.executableAt.Some? ==> r'.executableAt == r.executableAt && r'.approvals == r.approvals)
    && (r.status == Completed || r.status == Cancelled || r.status == Failed ==> r' == r)
  }

  // How a key may look one step later.
  predicate KeyMoved(c: Crypto, l: KeyView, l': KeyView, rotated: bool) {
    && KeyInvariant(c, l') && SameGroupKey(l, l')
    && (l.state == Retired ==> l' == l)
    && (l'.state == Created ==> l.state == Created)
    && l'.version == (if rotated then l.version + 1
                      else if l.state == Created && l'.state != Created then 1
                      else l.version)
    && (rotated ==> l.state != Created)
  }

  lemma RotationMoves(c: Crypto, l: KeyView, r: Request, now: nat, o: Oracle)
    requires KeyInvariant(c, l) && RequestInvariant(r)
    ensures var k := RotateWithRequest(c, l, r, now, o);
            KeyMoved(c, l, k.key, k.result.Ok?) && RequestInvariant(k.request) && RequestMoved(r, k.request)
  {
    RotationAllOrNothing(c, l, r, now, o);
    if BeginRotation(l, r, now).result.Ok? {
      MarkingCannotFail(l, r, now);
    }
  }

  lemma ApplyMoves(c: Crypto, l: KeyView, t: Terms, newThreshold: nat, o: Oracle)
    requires KeyInvariant(c, l)
    ensures var k := ApplyRotation(c, l, t, newThreshold, o);
            KeyMoved(c, l, k.next, k.result.Ok?)
  {
    ApplyKeeps(c, l, t, newThreshold, o);
  }

  lemma DkgMoves(c: Crypto, l: KeyView, run: Option<DkgRun>)
    requires KeyInvariant(c, l)
    ensures KeyMoved(c, l, Dkg(c, l, run).next, false)
  {
    DkgKeeps(c, l, run);
  }

  lemma RefreshMoves(c: Crypto, l: KeyView, o: Oracle)
    requires KeyInvariant(c, l)
    ensures KeyMoved(c, l, Refresh(c, l, o).next, false)
  {
    RefreshKeeps(c, l, o);
  }

  lemma BeginMoves(c: Crypto, l: KeyView, r: Request, now: nat)
    requires KeyInvariant(c, l)
    ensures KeyMoved(c, l, BeginRotation(l, r, now).next, false)
  {
    BeginKeeps(c, l, r, now);
  }

  lemma RequestMoves(r: Request, action: RequestOp)
    requires RequestInvariant(r)
    ensures RequestInvariant(RequestStep(r, action).next) && RequestMoved(r, RequestStep(r, action).next)
  {
    RequestStepKeeps(r, action);
  }

  lemma {:induction false} StepKeepsKey(c: Crypto, s: System, op: Op)
    requires SystemInvariant(c, s)
    ensures KeyMoved(c, s.key, Step(c, s, op).next.key, RotatesKey(c, s, op))
  {
    match op
    case DkgOp(run) => DkgMoves(c, s.key, run);
    case RefreshOp(o) => RefreshMoves(c, s.key, o);
    case RotateOp(i, now, o) =>
      if i < |s.requests| { RotationMoves(c, s.key, s.requests[i], now, o); }
    case BeginOp(i, now) =>
      if i < |s.requests| { BeginMoves(c, s.key, s.requests[i], now); }
    case ApplyOp(i, t, o) =>
      if i < |s.requests| { ApplyMoves(c, s.key, s.requests[i].terms, t, o); }
    case _ =>
  }

  lemma {:induction false} StepKeepsRequests(c: Crypto, s: System, op: Op)
    requires SystemInvariant(c, s)
    ensures var s' := Step(c, s, op).next;
            && |s.requests| <= |s'.requests|
            && (forall i :: 0 <= i < |s'.requests| ==> RequestInvariant(s'.requests[i]))
            && forall i :: 0 <= i < |s.requests| ==> RequestMoved(s.requests[i], s'.requests[i])
  {
    match op
    case RotateOp(i, now, o) =>
      if i < |s.requests| { RotationMoves(c, s.key, s.requests[i], now, o); }
    case ProposeOp(t, guardians) => InitiationEstablishes(t, guardians);
    case RequestOp(i, action) =>
      if i < |s.requests| { RequestMoves(s.requests[i], action); }
    case _ =>
  }

  lemma {:induction false} StepKeeps(c: Crypto, s: System, op: Op)
    requires SystemInvariant(c, s)
    ensures var s' := Step(c, s, op).next;
            && SystemInvariant(c, s') && KeyMoved(c, s.key, s'.key, RotatesKey(c, s, op))
            && |s.requests| <= |s'.requests|
            && forall i :: 0 <= i < |s.requests| ==> RequestMoved(s.requests[i], s'.requests[i])
  {
    StepKeepsKey(c, s, op);
    StepKeepsRequests(c, s, op);
  }

  lemma StepKeepsParticipants(c: Crypto, s: System, op: Op)
    requires HasParticipants(s.key)
    ensures HasParticipants(Step(c, s, op).next.key)
  {
  }

  // The system after a list of operations on a new key.
  ghost function Run(c: Crypto, ops: seq<Op>): (s: System)
    ensures HasParticipants(s.key)
  {
    if ops == [] then System(INITIAL_KEY, [])
    else
      var s := Run(c, ops[..|ops| - 1]);
      StepKeepsParticipants(c, s, ops[|ops| - 1]);
      Step(c, s, ops[|ops| - 1]).next
  }

  // The state before operation k, and after all of them for k = |ops|.
  ghost function At(c: Crypto, ops: seq<Op>, k: nat): (s: System)
    requires k <= |ops|
    ensures HasParticipants(s.key)
  {
    Run(c, ops[..k])
  }

  // In every run the key is locked exactly while refreshing or rotating, its
  // id and address are derived from its material, and every request satisfies
  // the invariant of requests.
  lemma {:induction false} AlwaysInvariant(c: Crypto, ops: seq<Op>)
    ensures SystemInvariant(c, Run(c, ops))
  {
    if ops != [] {
      var k := |ops| - 1;
      AlwaysInvariant(c, ops[..k]);
      StepKeeps(c, Run(c, ops[..k]), ops[k]);
    }
  }

  lemma AtNext(c: Crypto, ops: seq<Op>, k: nat)
    requires k < |ops|
    ensures At(c, ops, k + 1) == Step(c, At(c, ops, k), ops[k]).next
  {
    assert ops[..k + 1][..k] == ops[..k];
  }

  ghost predicate RotatesAt(c: Crypto, ops: seq<Op>, k: nat)
    requires k < |ops|
  {
    RotatesKey(c, At(c, ops, k), ops[k])
  }

  // ----- Safety over every run

  // What any later moment b has in common with an earlier moment a: the group
  // key and address once they exist, retirement, and the terms of requests;
  // versions do not decrease.
  ghost predicate Evolves(a: System, b: System) {
    && SameGroupKey(a.key, b.key) && a.key.version <= b.key.version
    && (a.key.state == Retired ==> b.key == a.key)
    && (b.key.state == Created ==> a.key.state == Created)
    && |a.requests| <= |b.requests|
    && forall r :: 0 <= r < |a.requests| ==> RequestMoved(a.requests[r], b.requests[r])
  }

  lemma EvolvesOn(a: System, m: System, b: System)
    requires Evolves(a, m) && Evolves(m, b)
    ensures Evolves(a, b)
  {
  }

  lemma NextEvolves(c: Crypto, ops: seq<Op>, k: nat)
    requires k < |ops|
    ensures Evolves(At(c, ops, k), At(c, ops, k + 1))
  {
    AtNext(c, ops, k);
    AlwaysInvariant(c, ops[..k]);
    StepKeeps(c, At(c, ops, k), ops[k]);
  }

  // Steps that evolve add up, in any list of states.
  lemma {:induction false} StepsAddUp(ss: seq<System>, i: nat, j: nat)
    requires i <= j < |ss| && forall k :: 0 <= k < |ss| - 1 ==> Evolves(ss[k], ss[k + 1])
    ensures Evolves(ss[i], ss[j])
    decreases j
  {
    if i < j {
      StepsAddUp(ss, i, j - 1);
      EvolvesOn(ss[i], ss[j - 1], ss[j - 1 + 1]);
    } else {
      EvolvesStill(ss[i]);
    }
  }

  lemma {:induction false} Monotone(c: Crypto, ops: seq<Op>, i: nat, j: nat)
    requires i <= j <= |ops|
    ensures Evolves(At(c, ops, i), At(c, ops, j))
  {
    var ss := seq(|ops| + 1, k requires 0 <= k <= |ops| => At(c, ops, k));
    forall k | 0 <= k < |ss| - 1 ensures Evolves(ss[k], ss[k + 1]) {
      NextEvolves(c, ops, k);
    }
    StepsAddUp(ss, i, j);
  }

  lemma EvolvesStill(a: System)
    ensures Evolves(a, a)
  {
  }

  // A version the key has moved past never signs again.
  lemma {:induction false} StaleVersionNeverSigns(c: Crypto, ops: seq<Op>, i: nat, j: nat, version: nat)
    requires i <= j <= |ops| && version < At(c, ops, i).key.version
    ensures CheckSigningAllowed(At(c, ops, j).key, version).Err?
  {
    Monotone(c, ops, i, j);
  }

  // Signing is allowed exactly on an active key at its current version.
  lemma SigningExactlyWhenActive(c: Crypto, ops: seq<Op>, version: nat)
    ensures CheckSigningAllowed(Run(c, ops).key, version).Ok? <==>
              Run(c, ops).key.state == Active && version == Run(c, ops).key.version
  {
    AlwaysInvariant(c, ops);
  }

  ghost function Rotations(c: Crypto, ops: seq<Op>): nat {
    if ops == [] then 0
    else Rotations(c, ops[..|ops| - 1]) + if RotatesAt(c, ops, |ops| - 1) then 1 else 0
  }

  // The version counts the rotations.
  lemma {:induction false} VersionCountsRotations(c: Crypto, ops: seq<Op>)
    ensures Run(c, ops).key.version == if Run(c, ops).key.state == Created then 0 else 1 + Rotations(c, ops)
    ensures Run(c, ops).key.state == Created ==> Rotations(c, ops) == 0
  {
    if ops != [] {
      VersionCountsRotations(c, ops[..|ops| - 1]);
      AlwaysInvariant(c, ops[..|ops| - 1]);
      StepKeeps(c, At(c, ops, |ops| - 1), ops[|ops| - 1]);
    }
  }

  // ----- Governed runs

  // Rotations only through the governed entry point.
  predicate Governed(ops: seq<Op>) {
    forall k :: 0 <= k < |ops| ==> !ops[k].BeginOp? && !ops[k].ApplyOp?
  }

  predicate Settled(l: KeyView) {
    !l.locked && (l.state == Created || l.state == Active || l.state == Retired)
  }

  lemma GovernedStepSettles(c: Crypto, s: System, op: Op)
    requires SystemInvariant(c, s) && Settled(s.key) && !op.BeginOp? && !op.ApplyOp?
    ensures Settled(Step(c, s, op).next.key)
  {
  }

  lemma GovernedRunSettles(c: Crypto, ops: seq<Op>)
    requires ops != [] && Governed(ops) && Settled(Run(c, ops[..|ops| - 1]).key)
    ensures Settled(Run(c, ops).key)
  {
    var s, op := Run(c, ops[..|ops| - 1]), ops[|ops| - 1];
    AlwaysInvariant(c, ops[..|ops| - 1]);
    GovernedStepSettles(c, s, op);
    assert Run(c, ops) == Step(c, s, op).next;
  }

  // In a governed run no operation leaves the key mid-way.
  lemma {:induction false} GovernedNeverLocked(c: Crypto, ops: seq<Op>)
    requires Governed(ops)
    ensures Settled(Run(c, ops).key)
  {
    if ops != [] {
      var k := |ops| - 1;
      GovernedNeverLocked(c, ops[..k]);
      GovernedRunSettles(c, ops);
    }
  }

  // The operation is the approval that completes the quorum of request i.
  predicate CompletesQuorum(s: System, op: Op, i: nat) {
    && op.RequestOp? && op.req == i && op.action.ApproveOp? && i < |s.requests|
    && var r := s.requests[i];
       |r.approvals| + 1 == |Approve(r, op.action.guardian, op.action.now).next.approvals| == r.terms.quorum
  }

  ghost predicate QuorumAt(c: Crypto, ops: seq<Op>, i: nat, j: nat) {
    j < |ops| && CompletesQuorum(At(c, ops, j), ops[j], i)
  }

  lemma PrefixQuorum(c: Crypto, ops: seq<Op>, k: nat, i: nat, j: nat)
    requires k <= |ops| && QuorumAt(c, ops[..k], i, j)
    ensures QuorumAt(c, ops, i, j)
  {
    assert ops[..k][..j] == ops[..j];
  }

  lemma ApprovalReleases(r: Request, action: RequestOp)
    requires RequestInvariant(r)
    ensures var r' := RequestStep(r, action).next;
            r'.executableAt.Some? && r.executableAt.None? ==>
              && action.ApproveOp? && r'.executableAt == Some(action.now + r.terms.timelock)
              && |r.approvals| + 1 == |Approve(r, action.guardian, action.now).next.approvals| == r.terms.quorum
  {
  }

  // The release time of request i before and after an operation: it appears
  // only in that approval, and then stays.
  predicate ReleaseMoved(s: System, op: Op, i: nat, rs: seq<Request>) {
    i < |rs| && rs[i].executableAt.Some? ==>
      i < |s.requests| && rs[i].terms == s.requests[i].terms
      && if s.requests[i].executableAt.Some? then rs[i].executableAt == s.requests[i].executableAt
         else CompletesQuorum(s, op, i) && rs[i].executableAt == Some(op.action.now + rs[i].terms.timelock)
  }

  lemma ReleaseOnRequest(s: System, i: nat, n: nat, action: RequestOp)
    requires n < |s.requests| && RequestInvariant(s.requests[n])
    ensures ReleaseMoved(s, RequestOp(n, action), i, s.requests[n := RequestStep(s.requests[n], action).next])
  {
    RequestStepKeeps(s.requests[n], action);
    ApprovalReleases(s.requests[n], action);
  }

  lemma ReleaseTimeStep(c: Crypto, s: System, op: Op, i: nat)
    requires SystemInvariant(c, s)
    ensures ReleaseMoved(s, op, i, Step(c, s, op).next.requests)
  {
    match op
    case RotateOp(n, now, o) =>
      if n < |s.requests| { RotationKeepsRelease(c, s.key, s.requests[n], now, o); }
    case ProposeOp(t, guardians) => InitiationEstablishes(t, guardians);
    case RequestOp(n, action) =>
      if n < |s.requests| { ReleaseOnRequest(s, i, n, action); }
    case _ =>
  }

  lemma RotationKeepsRelease(c: Crypto, l: KeyView, r: Request, now: nat, o: Oracle)
    requires KeyInvariant(c, l) && RequestInvariant(r)
    ensures var r' := RotateWithRequest(c, l, r, now, o).request;
            r'.executableAt == r.executableAt && r'.terms == r.terms
  {
    RotationAllOrNothing(c, l, r, now, o);
  }

  // A release time is always the quorum time plus the timelock.
  lemma {:induction false} ReleaseTimeOrigin(c: Crypto, ops: seq<Op>, i: nat) returns (j: nat)
    requires i < |Run(c, ops).requests| && Run(c, ops).requests[i].executableAt.Some?
    ensures QuorumAt(c, ops, i, j)
    ensures Run(c, ops).requests[i].executableAt.value == ops[j].action.now + Run(c, ops).requests[i].terms.timelock
  {
    j := 0;
    if ops != [] {
      var k := |ops| - 1;
      var s := Run(c, ops[..k]);
      AlwaysInvariant(c, ops[..k]);
      ReleaseTimeStep(c, s, ops[k], i);
      if s.requests[i].executableAt.Some? {
        j := ReleaseTimeOrigin(c, ops[..k], i);
        PrefixQuorum(c, ops, k, i, j);
      } else {
        j := k;
      }
    }
  }

  // ----- What stands behind an increment

  // Operations on the key, as opposed to those on requests.
  predicate TouchesKey(op: Op) {
    !op.ProposeOp? && !op.RequestOp?
  }

  // Request i is for the present version and key and holds exactly its quorum
  // of distinct approvals, and its release time has come.
  predicate Released(c: Crypto, s: System, i: nat, now: nat) {
    && i < |s.requests| && s.key.material.Some?
    && var r := s.requests[i];
       && r.status == QuorumReached && r.executableAt.Some? && now >= r.executableAt.value
       && |r.approvals| == r.terms.quorum && DistinctNames(r.approvals)
       && r.terms.oldVersion == s.key.version
       && r.terms.groupKey == c.compressed(s.key.material.value.groupKey.verifyingKey)
  }

  // A key is found rotating after a step only if it was so before and the step
  // did nothing to it, or if the step began a rotation.
  lemma RotatingStep(c: Crypto, s: System, op: Op)
    requires SystemInvariant(c, s) && Step(c, s, op).next.key.state == Rotating
    ensures if s.key.state == Rotating
            then Step(c, s, op).next.key == s.key && (TouchesKey(op) ==> !Step(c, s, op).ok)
            else op.BeginOp? && Step(c, s, op).ok && op.req < |s.requests|
                 && Step(c, s, op).next.key == s.key.(state := Rotating, locked := true)
  {
    match op
    case RotateOp(i, now, o) =>
      if i < |s.requests| { RotationAllOrNothing(c, s.key, s.requests[i], now, o); }
    case ApplyOp(i, t, o) =>
      if i < |s.requests| { ApplyKeeps(c, s.key, s.requests[i].terms, t, o); }
    case _ =>
  }

  // A rotation installs what resharing returned for the terms it was given; a
  // governed one had those terms released, a direct one only a rotating key.
  lemma RotationStep(c: Crypto, s: System, op: Op)
    requires SystemInvariant(c, s) && RotatesKey(c, s, op)
    ensures op.req < |s.requests| && s.key.material.Some?
    ensures var s', t := Step(c, s, op).next, s.requests[op.req].terms;
            && s'.key.material.Some?
            && DoRotation(s.key.material.value, t.newSet, t.threshold, op.o, c.address) == Ok(s'.key.material.value)
            && s'.key.version == s.key.version + 1 && s'.key.state == Active
    ensures op.RotateOp? ==> Released(c, s, op.req, op.now)
    ensures op.ApplyOp? ==> s.key.state == Rotating && Step(c, s, op).next.requests == s.requests
  {
    match op
    case RotateOp(i, now, o) =>
      RotationAllOrNothing(c, s.key, s.requests[i], now, o);
      BeginWasReleased(c, s.key, s.requests[i], now);
    case ApplyOp(i, t, o) => ApplyKeeps(c, s.key, s.requests[i].terms, t, o);
  }

  ghost predicate KeyRefusedAt(c: Crypto, ops: seq<Op>, m: nat)
    requires m < |ops|
  {
    TouchesKey(ops[m]) ==> !Step(c, At(c, ops, m), ops[m]).ok
  }

  ghost predicate KeyHeld(c: Crypto, ops: seq<Op>, j: nat, k: nat)
    requires j < k <= |ops|
  {
    forall m :: j < m <= k ==> At(c, ops, m).key == At(c, ops, j + 1).key
  }

  ghost predicate KeyRefused(c: Crypto, ops: seq<Op>, j: nat, k: nat)
    requires j < k <= |ops|
  {
    forall m :: j < m < k ==> KeyRefusedAt(c, ops, m)
  }

  // Operation j began a rotation, and until k the key was refused every other
  // operation and stayed as j left it: j is the latest beginning before k.
  ghost predicate BeganAt(c: Crypto, ops: seq<Op>, j: nat, k: nat) {
    && j < k <= |ops| && ops[j].BeginOp? && Step(c, At(c, ops, j), ops[j]).ok
    && At(c, ops, j + 1).key == At(c, ops, j).key.(state := Rotating, locked := true)
    && KeyHeld(c, ops, j, k) && KeyRefused(c, ops, j, k)
  }

  lemma BeganJustNow(c: Crypto, ops: seq<Op>, j: nat)
    requires j < |ops| && ops[j].BeginOp? && Step(c, At(c, ops, j), ops[j]).ok
    requires At(c, ops, j + 1).key == At(c, ops, j).key.(state := Rotating, locked := true)
    ensures BeganAt(c, ops, j, j + 1)
  {
  }

  lemma HeldStill(c: Crypto, ops: seq<Op>, j: nat, k: nat)
    requires j < k < |ops| && KeyHeld(c, ops, j, k) && At(c, ops, k + 1).key == At(c, ops, k).key
    ensures KeyHeld(c, ops, j, k + 1)
  {
  }

  lemma RefusedStill(c: Crypto, ops: seq<Op>, j: nat, k: nat)
    requires j < k < |ops| && KeyRefused(c, ops, j, k) && KeyRefusedAt(c, ops, k)
    ensures KeyRefused(c, ops, j, k + 1)
  {
  }

  lemma BeganStill(c: Crypto, ops: seq<Op>, j: nat, k: nat)
    requires k < |ops| && BeganAt(c, ops, j, k) && At(c, ops, k + 1).key == At(c, ops, k).key
    requires KeyRefusedAt(c, ops, k)
    ensures BeganAt(c, ops, j, k + 1)
  {
    HeldStill(c, ops, j, k);
    RefusedStill(c, ops, j, k);
  }

  lemma BeganHere(c: Crypto, ops: seq<Op>, k: nat)
    requires k < |ops| && At(c, ops, k).key.state != Rotating && At(c, ops, k + 1).key.state == Rotating
    ensures BeganAt(c, ops, k, k + 1) && Released(c, At(c, ops, k), ops[k].req, ops[k].now)
  {
    var s := At(c, ops, k);
    AtNext(c, ops, k);
    AlwaysInvariant(c, ops[..k]);
    RotatingStep(c, s, ops[k]);
    BeganJustNow(c, ops, k);
    BeginWasReleased(c, s.key, s.requests[ops[k].req], ops[k].now);
  }

  lemma RotatingStill(c: Crypto, ops: seq<Op>, j: nat, k: nat)
    requires k < |ops| && BeganAt(c, ops, j, k) && At(c, ops, k + 1).key.state == Rotating
    ensures BeganAt(c, ops, j, k + 1)
  {
    AtNext(c, ops, k);
    AlwaysInvariant(c, ops[..k]);
    RotatingStep(c, At(c, ops, k), ops[k]);
    BeganStill(c, ops, j, k);
  }

  // Whenever a key is found rotating, a released request began it.
  lemma {:induction false} RotatingOrigin(c: Crypto, ops: seq<Op>, k: nat) returns (j: nat)
    requires k <= |ops| && At(c, ops, k).key.state == Rotating
    ensures BeganAt(c, ops, j, k) && Released(c, At(c, ops, j), ops[j].req, ops[j].now)
    decreases k
  {
    assert k > 0 by { assert ops[..0] == []; }
    if At(c, ops, k - 1).key.state == Rotating {
      j := RotatingOrigin(c, ops, k - 1);
      RotatingStill(c, ops, j, k - 1);
    } else {
      j := k - 1;
      BeganHere(c, ops, j);
    }
  }

  // So a key is mid-rotation exactly when one was begun and nothing has ended it.
  lemma {:induction false} RotatingExactly(c: Crypto, ops: seq<Op>, k: nat)
    requires k <= |ops|
    ensures At(c, ops, k).key.state == Rotating <==> exists j :: BeganAt(c, ops, j, k)
  {
    if At(c, ops, k).key.state == Rotating {
      var j := RotatingOrigin(c, ops, k);
    }
  }

  // The moment that authorised the rotation at k: the same one for the
  // governed entry point, the latest beginning for a direct application.
  ghost predicate Authorised(c: Crypto, ops: seq<Op>, b: nat, k: nat) {
    && b <= k < |ops| && RotatesAt(c, ops, k)
    && if ops[k].RotateOp? then b == k else BeganAt(c, ops, b, k)
  }

  // Every version increment of every run was authorised by a request for the
  // version it replaces and for this key, holding exactly its quorum of
  // distinct approvals, no earlier than the time of the approval that completed
  // the quorum plus the request's timelock of at least an hour.
  lemma {:induction false} IncrementBacked(c: Crypto, ops: seq<Op>, k: nat) returns (b: nat, j: nat)
    requires k < |ops| && RotatesAt(c, ops, k)
    ensures Authorised(c, ops, b, k) && Released(c, At(c, ops, b), ops[b].req, ops[b].now)
    ensures At(c, ops, b).key.version == At(c, ops, k).key.version
    ensures At(c, ops, b).key.material == At(c, ops, k).key.material
    ensures var r := At(c, ops, b).requests[ops[b].req];
            && r.terms.timelock >= MIN_TIMELOCK_SECONDS
            && j < b && QuorumAt(c, ops, ops[b].req, j) && ops[b].now >= ops[j].action.now + r.terms.timelock
  {
    AlwaysInvariant(c, ops[..k]);
    RotationStep(c, At(c, ops, k), ops[k]);
    if ops[k].RotateOp? {
      b := k;
    } else {
      b := RotatingOrigin(c, ops, k);
    }
    AlwaysInvariant(c, ops[..b]);
    j := ReleaseTimeOrigin(c, ops[..b], ops[b].req);
    PrefixQuorum(c, ops, b, ops[b].req, j);
  }

  // The terms that authorised the rotation at k, and the terms it was given.
  ghost function Approved(c: Crypto, ops: seq<Op>, b: nat): Terms
    requires b < |ops| && (ops[b].RotateOp? || ops[b].BeginOp?) && ops[b].req < |At(c, ops, b).requests|
  {
    At(c, ops, b).requests[ops[b].req].terms
  }

  ghost function Applied(c: Crypto, ops: seq<Op>, k: nat): (t: Terms)
    requires k < |ops| && RotatesAt(c, ops, k)
  {
    AlwaysInvariant(c, ops[..k]);
    RotationStep(c, At(c, ops, k), ops[k]);
    At(c, ops, k).requests[ops[k].req].terms
  }

  // A rotation given the request that authorised it is given its terms.
  lemma OwnTerms(c: Crypto, ops: seq<Op>, b: nat, k: nat)
    requires Authorised(c, ops, b, k) && ops[b].req == ops[k].req < |At(c, ops, b).requests|
    ensures Applied(c, ops, k) == Approved(c, ops, b)
  {
    Monotone(c, ops, b, k);
    assert RequestMoved(At(c, ops, b).requests[ops[b].req], At(c, ops, k).requests[ops[b].req]);
  }

  // What a rotation installs is settled by the terms it is given: the parties
  // and threshold are those of the approved terms exactly when the two have
  // the same threshold and name by name denote the same parties.
  lemma {:induction false} InstalledAsApproved(c: Crypto, ops: seq<Op>, b: nat, k: nat)
    requires Authorised(c, ops, b, k) && ops[b].req < |At(c, ops, b).requests|
    ensures At(c, ops, k).key.material.Some? && At(c, ops, k + 1).key.material.Some?
    ensures var olds, m := At(c, ops, k).key.material.value.participants, At(c, ops, k + 1).key.material.value;
            var applied, approved := Applied(c, ops, k), Approved(c, ops, b);
            && PartySeq(m.participants) == NewParties(olds, applied.newSet) && m.threshold == applied.threshold
            && (PartySeq(m.participants) == NewParties(olds, approved.newSet) && m.threshold == approved.threshold
                <==> applied.threshold == approved.threshold && SameHolders(olds, applied.newSet, approved.newSet))
  {
    var s, t := At(c, ops, k), Applied(c, ops, k);
    AtNext(c, ops, k);
    AlwaysInvariant(c, ops[..k]);
    RotationStep(c, s, ops[k]);
    RotationParties(s.key.material.value, t.newSet, t.threshold, ops[k].o, c.address);
    SameHoldersExactly(s.key.material.value.participants, t.newSet, Approved(c, ops, b).newSet);
  }

  // Every direct application names the request that began the rotation.
  ghost predicate Tied(c: Crypto, ops: seq<Op>) {
    forall b: nat, k: nat :: Authorised(c, ops, b, k) ==> ops[b].req == ops[k].req
  }

  lemma GovernedAuthorisesItself(c: Crypto, ops: seq<Op>, b: nat, k: nat)
    requires Governed(ops) && Authorised(c, ops, b, k)
    ensures b == k
  {
  }

  lemma GovernedIsTied(c: Crypto, ops: seq<Op>)
    requires Governed(ops)
    ensures Tied(c, ops)
  {
    forall b: nat, k: nat | Authorised(c, ops, b, k) ensures b == k {
      GovernedAuthorisesItself(c, ops, b, k);
    }
  }

  // No request authorises two increments, in any run: authorising requests
  // are for increasing versions. A rotation given the request that authorised
  // it installs what was approved, and a request rotated twice was given to at
  // least one rotation that it did not authorise.
  lemma {:induction false} OwnRequest(c: Crypto, ops: seq<Op>, k: nat, k': nat) returns (b: nat, b': nat)
    requires k < k' < |ops| && RotatesAt(c, ops, k) && RotatesAt(c, ops, k')
    ensures Authorised(c, ops, b, k) && Released(c, At(c, ops, b), ops[b].req, ops[b].now)
    ensures Authorised(c, ops, b', k') && Released(c, At(c, ops, b'), ops[b'].req, ops[b'].now)
    ensures b < b' && ops[b].req != ops[b'].req
    ensures Approved(c, ops, b).oldVersion < Approved(c, ops, b').oldVersion
    ensures ops[b].req == ops[k].req ==> Applied(c, ops, k) == Approved(c, ops, b)
    ensures ops[b'].req == ops[k'].req ==> Applied(c, ops, k') == Approved(c, ops, b')
    ensures ops[k].req == ops[k'].req ==> ops[b].req != ops[k].req || ops[b'].req != ops[k'].req
  {
    var j, j';
    b, j := IncrementBacked(c, ops, k);
    b', j' := IncrementBacked(c, ops, k');
    VersionPassed(c, ops, k, k');
    if b' <= b {
      Monotone(c, ops, b', b);
    } else {
      Monotone(c, ops, b, b');
      assert RequestMoved(At(c, ops, b).requests[ops[b].req], At(c, ops, b').requests[ops[b].req]);
    }
    if ops[b].req == ops[k].req { OwnTerms(c, ops, b, k); }
    if ops[b'].req == ops[k'].req { OwnTerms(c, ops, b', k'); }
  }

  // ----- Cancellation between beginning and applying

  ghost predicate CancelsAt(c: Crypto, ops: seq<Op>, i: nat, m: nat) {
    m < |ops| && ops[m] == RequestOp(i, CancelOp) && Step(c, At(c, ops, m), ops[m]).ok
  }

  // A request is found cancelled exactly if it was so or this step cancels it.
  lemma CancelledStep(c: Crypto, s: System, op: Op, i: nat)
    requires SystemInvariant(c, s) && i < |s.requests|
    ensures i < |Step(c, s, op).next.requests|
    ensures Step(c, s, op).next.requests[i].status == Cancelled <==>
              s.requests[i].status == Cancelled || (op == RequestOp(i, CancelOp) && Step(c, s, op).ok)
  {
    match op
    case RotateOp(n, now, o) =>
      if n < |s.requests| { RotationAllOrNothing(c, s.key, s.requests[n], now, o); }
    case RequestOp(n, action) =>
      if n < |s.requests| { CancelledByRequest(s.requests[n], action); }
    case _ =>
  }

  lemma CancelledByRequest(r: Request, action: RequestOp)
    requires RequestInvariant(r)
    ensures RequestStep(r, action).next.status == Cancelled <==>
              r.status == Cancelled || (action == CancelOp && RequestStep(r, action).result.Ok?)
  {
  }

  ghost predicate CancelledAt(c: Crypto, ops: seq<Op>, i: nat, k: nat) {
    k <= |ops| && i < |At(c, ops, k).requests| && At(c, ops, k).requests[i].status == Cancelled
  }

  lemma CancelledNext(c: Crypto, ops: seq<Op>, i: nat, b: nat, k: nat)
    requires b <= k < |ops| && i < |At(c, ops, b).requests|
    ensures CancelledAt(c, ops, i, k + 1) <==> CancelledAt(c, ops, i, k) || CancelsAt(c, ops, i, k)
  {
    Monotone(c, ops, b, k);
    AtNext(c, ops, k);
    AlwaysInvariant(c, ops[..k]);
    CancelledStep(c, At(c, ops, k), ops[k], i);
  }

  // A cancellation of request i succeeded from b on and before k.
  ghost predicate CancelledBetween(c: Crypto, ops: seq<Op>, i: nat, b: nat, k: nat) {
    exists m :: b <= m < k && CancelsAt(c, ops, i, m)
  }

  lemma BetweenNext(c: Crypto, ops: seq<Op>, i: nat, b: nat, k: nat)
    requires b <= k
    ensures CancelledBetween(c, ops, i, b, k + 1) <==> CancelledBetween(c, ops, i, b, k) || CancelsAt(c, ops, i, k)
  {
  }

  // A request not cancelled at b is so at k exactly if a cancellation of it
  // succeeded in between.
  lemma {:induction false} CancelledSince(c: Crypto, ops: seq<Op>, i: nat, b: nat, k: nat)
    requires b <= k <= |ops| && i < |At(c, ops, b).requests| && !CancelledAt(c, ops, i, b)
    ensures CancelledAt(c, ops, i, k) <==> CancelledBetween(c, ops, i, b, k)
    decreases k
  {
    if b < k {
      CancelledSince(c, ops, i, b, k - 1);
      SinceNext(c, ops, i, b, k - 1);
    } else {
      NothingBetween(c, ops, i, b);
    }
  }

  lemma SinceNext(c: Crypto, ops: seq<Op>, i: nat, b: nat, k: nat)
    requires b <= k < |ops| && i < |At(c, ops, b).requests|
    requires CancelledAt(c, ops, i, k) <==> CancelledBetween(c, ops, i, b, k)
    ensures CancelledAt(c, ops, i, k + 1) <==> CancelledBetween(c, ops, i, b, k + 1)
  {
    CancelledNext(c, ops, i, b, k);
    BetweenNext(c, ops, i, b, k);
  }

  lemma NothingBetween(c: Crypto, ops: seq<Op>, i: nat, b: nat)
    ensures !CancelledBetween(c, ops, i, b, b)
  {
  }

  lemma AuthorisedWasReleased(c: Crypto, ops: seq<Op>, b: nat, k: nat)
    requires Authorised(c, ops, b, k)
    ensures Released(c, At(c, ops, b), ops[b].req, ops[b].now)
  {
    var s := At(c, ops, b);
    AlwaysInvariant(c, ops[..b]);
    if ops[k].RotateOp? {
      RotationStep(c, s, ops[b]);
    } else {
      BeginWasReleased(c, s.key, s.requests[ops[b].req], ops[b].now);
    }
  }

  // The request that authorised a rotation is cancelled by the time of it
  // exactly if a cancellation of it succeeded since.
  lemma {:induction false} CancelledWhenRotated(c: Crypto, ops: seq<Op>, b: nat, k: nat)
    requires Authorised(c, ops, b, k)
    ensures ops[b].req < |At(c, ops, k).requests|
    ensures At(c, ops, k).requests[ops[b].req].status == Cancelled <==> CancelledBetween(c, ops, ops[b].req, b, k)
  {
    AuthorisedWasReleased(c, ops, b, k);
    Monotone(c, ops, b, k);
    CancelledSince(c, ops, ops[b].req, b, k);
  }

  // A request rotated through the governed entry point is never cancelled, at
  // any moment of any run.
  lemma {:induction false} GovernedNeverCancelled(c: Crypto, ops: seq<Op>, k: nat, j: nat)
    requires k < |ops| && ops[k].RotateOp? && RotatesAt(c, ops, k)
    requires j <= |ops| && ops[k].req < |At(c, ops, j).requests|
    ensures At(c, ops, j).requests[ops[k].req].status != Cancelled
  {
    var s, i := At(c, ops, k), ops[k].req;
    AlwaysInvariant(c, ops[..k]);
    RotationStep(c, s, ops[k]);
    if j <= k {
      Monotone(c, ops, j, k);
      assert RequestMoved(At(c, ops, j).requests[i], s.requests[i]);
    } else {
      RotationAllOrNothing(c, s.key, s.requests[i], ops[k].now, ops[k].o);
      AtNext(c, ops, k);
      Monotone(c, ops, k + 1, j);
      assert RequestMoved(At(c, ops, k + 1).requests[i], At(c, ops, j).requests[i]);
    }
  }

  lemma VersionPassed(c: Crypto, ops: seq<Op>, k: nat, k': nat)
    requires k < k' <= |ops| && RotatesAt(c, ops, k)
    ensures At(c, ops, k).key.version < At(c, ops, k').key.version
  {
    AtNext(c, ops, k);
    AlwaysInvariant(c, ops[..k]);
    StepKeeps(c, At(c, ops, k), ops[k]);
    Monotone(c, ops, k + 1, k');
  }

  // A request that rotated in a governed run ends completed, for a version now
  // passed. (A request can also be marked completed without rotating, through
  // its own operations.)
  lemma {:induction false} RotatedRequestsCompleted(c: Crypto, ops: seq<Op>, k: nat)
    requires Governed(ops) && k < |ops| && RotatesAt(c, ops, k)
    ensures ops[k].RotateOp? && ops[k].req < |Run(c, ops).requests|
    ensures Run(c, ops).requests[ops[k].req].status == Completed
    ensures Run(c, ops).requests[ops[k].req].terms.oldVersion == At(c, ops, k).key.version < Run(c, ops).key.version
  {
    var s, i := At(c, ops, k), ops[k].req;
    AlwaysInvariant(c, ops[..k]);
    RotationStep(c, s, ops[k]);
    RotationAllOrNothing(c, s.key, s.requests[i], ops[k].now, ops[k].o);
    AtNext(c, ops, k);
    Monotone(c, ops, k + 1, |ops|);
    VersionPassed(c, ops, k, |ops|);
    assert ops[..|ops|] == ops;
    assert RequestMoved(At(c, ops, k + 1).requests[i], Run(c, ops).requests[i]);
  }

  // What completes request i: a governed rotation, or its own closing mark.
  ghost predicate CompletesAt(c: Crypto, ops: seq<Op>, i: nat, m: nat) {
    && m < |ops| && (ops[m] == RequestOp(i, CompletedOp) || (ops[m].RotateOp? && ops[m].req == i))
    && Step(c, At(c, ops, m), ops[m]).ok
  }

  lemma CompletedStep(c: Crypto, s: System, op: Op, i: nat)
    requires SystemInvariant(c, s) && i < |Step(c, s, op).next.requests|
    ensures Step(c, s, op).next.requests[i].status == Completed <==>
              || (i < |s.requests| && s.requests[i].status == Completed)
              || ((op == RequestOp(i, CompletedOp) || (op.RotateOp? && op.req == i)) && Step(c, s, op).ok)
  {
    match op
    case RotateOp(n, now, o) =>
      if n < |s.requests| { RotationAllOrNothing(c, s.key, s.requests[n], now, o); }
    case ProposeOp(t, guardians) => InitiationEstablishes(t, guardians);
    case RequestOp(n, action) =>
      if n < |s.requests| { CompletedByRequest(s.requests[n], action); }
    case _ =>
  }

  lemma CompletedByRequest(r: Request, action: RequestOp)
    requires RequestInvariant(r)
    ensures RequestStep(r, action).next.status == Completed <==>
              r.status == Completed || (action == CompletedOp && RequestStep(r, action).result.Ok?)
  {
  }

  lemma CompletedNext(c: Crypto, ops: seq<Op>, i: nat, k: nat)
    requires k < |ops| && i < |At(c, ops, k + 1).requests|
    ensures At(c, ops, k + 1).requests[i].status == Completed <==>
              || (i < |At(c, ops, k).requests| && At(c, ops, k).requests[i].status == Completed)
              || CompletesAt(c, ops, i, k)
  {
    AtNext(c, ops, k);
    AlwaysInvariant(c, ops[..k]);
    CompletedStep(c, At(c, ops, k), ops[k], i);
  }

  ghost predicate CompletedBefore(c: Crypto, ops: seq<Op>, i: nat, k: nat) {
    exists m :: 0 <= m < k && CompletesAt(c, ops, i, m)
  }

  lemma CompletedBeforeNext(c: Crypto, ops: seq<Op>, i: nat, k: nat)
    ensures CompletedBefore(c, ops, i, k + 1) <==> CompletedBefore(c, ops, i, k) || CompletesAt(c, ops, i, k)
  {
  }

  lemma NotYetCompleted(c: Crypto, ops: seq<Op>, i: nat, k: nat)
    requires k <= |ops| && i >= |At(c, ops, k).requests|
    ensures !CompletedBefore(c, ops, i, k)
  {
    forall m | 0 <= m < k ensures !CompletesAt(c, ops, i, m) {
      Monotone(c, ops, m, k);
    }
  }

  // In any run a request is found completed exactly if a governed rotation of
  // it or its own closing mark succeeded: applying it directly completes nothing.
  lemma {:induction false} CompletedExactly(c: Crypto, ops: seq<Op>, i: nat, k: nat)
    requires k <= |ops| && i < |At(c, ops, k).requests|
    ensures At(c, ops, k).requests[i].status == Completed <==> CompletedBefore(c, ops, i, k)
    decreases k
  {
    assert k > 0 by { assert ops[..0] == []; }
    if i < |At(c, ops, k - 1).requests| {
      CompletedExactly(c, ops, i, k - 1);
    } else {
      NotYetCompleted(c, ops, i, k - 1);
    }
    CompletedNext(c, ops, i, k - 1);
    CompletedBeforeNext(c, ops, i, k - 1);
  }

  // ----- Distinct parties

  predicate PartiesDistinct(l: KeyView) {
    l.material.Some? ==> DistinctParties(l.material.value.participants)
  }

  // The names given to the rotation at k are apart for the parties of then.
  ghost predicate NamesApartAt(c: Crypto, ops: seq<Op>, k: nat)
    requires k < |ops| && RotatesAt(c, ops, k)
  {
    AlwaysInvariant(c, ops[..k]);
    RotationStep(c, At(c, ops, k), ops[k]);
    NamesApart(At(c, ops, k).key.material.value.participants, Applied(c, ops, k).newSet)
  }

  // After a rotation the parties are distinct exactly if the names given to it
  // were apart; any other operation leaves the parties, once there.
  lemma PartiesAfter(c: Crypto, ops: seq<Op>, k: nat)
    requires k < |ops|
    ensures PartiesDistinct(At(c, ops, k + 1).key) <==>
              if RotatesAt(c, ops, k) then NamesApartAt(c, ops, k) else PartiesDistinct(At(c, ops, k).key)
  {
    var s, op := At(c, ops, k), ops[k];
    AtNext(c, ops, k);
    AlwaysInvariant(c, ops[..k]);
    if RotatesAt(c, ops, k) {
      RotationStep(c, s, op);
      var t := Applied(c, ops, k);
      RotationResult(s.key.material.value, t.newSet, t.threshold, op.o, c.address);
    } else {
      PartiesUnmoved(c, s, op);
    }
  }

  lemma PartiesUnmoved(c: Crypto, s: System, op: Op)
    requires SystemInvariant(c, s) && !RotatesKey(c, s, op)
    ensures PartiesDistinct(Step(c, s, op).next.key) <==> PartiesDistinct(s.key)
  {
    match op
    case RefreshOp(o) => RefreshedParties(c, s.key, o);
    case RotateOp(i, now, o) =>
      if i < |s.requests| { RotationAllOrNothing(c, s.key, s.requests[i], now, o); }
    case ApplyOp(i, t, o) =>
      if i < |s.requests| { ApplyKeeps(c, s.key, s.requests[i].terms, t, o); }
    case _ =>
  }

  lemma RefreshedParties(c: Crypto, l: KeyView, o: Oracle)
    requires KeyInvariant(c, l)
    ensures PartiesDistinct(Refresh(c, l, o).next) <==> PartiesDistinct(l)
  {
    RefreshKeeps(c, l, o);
    if Refresh(c, l, o).result.Ok? { RefreshResult(l.material.value, o, c.address); }
  }

  // The latest rotation before moment n.
  ghost function LastRotation(c: Crypto, ops: seq<Op>, n: nat): (k: Option<nat>)
    requires n <= |ops|
    ensures k.Some? ==> k.value < n && RotatesAt(c, ops, k.value)
  {
    if n == 0 then None
    else if RotatesAt(c, ops, n - 1) then Some(n - 1)
    else LastRotation(c, ops, n - 1)
  }

  // At any moment of any run the parties are pairwise distinct exactly if the
  // names given to the latest rotation, if any, were apart.
  lemma {:induction false} PartiesDistinctExactly(c: Crypto, ops: seq<Op>, n: nat)
    requires n <= |ops|
    ensures PartiesDistinct(At(c, ops, n).key) <==>
              match LastRotation(c, ops, n)
              case None => true
              case Some(k) => NamesApartAt(c, ops, k)
  {
    if n == 0 {
      assert ops[..0] == [];
    } else {
      PartiesDistinctExactly(c, ops, n - 1);
      PartiesAfter(c, ops, n - 1);
    }
  }

  ghost predicate DistinctThrough(c: Crypto, ops: seq<Op>, n: nat)
    requires n <= |ops|
  {
    forall k :: 0 <= k <= n ==> PartiesDistinct(At(c, ops, k).key)
  }

  ghost predicate ApartThrough(c: Crypto, ops: seq<Op>, n: nat)
    requires n <= |ops|
  {
    forall k :: 0 <= k < n && RotatesAt(c, ops, k) ==> NamesApartAt(c, ops, k)
  }

  lemma ThroughNext(c: Crypto, ops: seq<Op>, n: nat)
    requires n < |ops|
    ensures DistinctThrough(c, ops, n + 1) <==> DistinctThrough(c, ops, n) && PartiesDistinct(At(c, ops, n + 1).key)
    ensures ApartThrough(c, ops, n + 1) <==>
              ApartThrough(c, ops, n) && (RotatesAt(c, ops, n) ==> NamesApartAt(c, ops, n))
  {
  }

  // In every run, no two participants ever share a party exactly when every
  // rotation was given names that were apart when it was applied.
  lemma {:induction false} PartiesStayDistinct(c: Crypto, ops: seq<Op>, n: nat)
    requires n <= |ops|
    ensures DistinctThrough(c, ops, n) <==> ApartThrough(c, ops, n)
  {
    if n == 0 {
      assert ops[..0] == [];
    } else {
      PartiesStayDistinct(c, ops, n - 1);
      ThroughNext(c, ops, n - 1);
      if DistinctThrough(c, ops, n - 1) {
        assert PartiesDistinct(At(c, ops, n - 1).key);
        PartiesAfter(c, ops, n - 1);
      }
    }
  }
}
