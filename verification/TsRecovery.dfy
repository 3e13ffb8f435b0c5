// The TypeScript recovery records, and how far they stay in step with the Rust
// machine. Clock readings are a parameter; TypeScript counts milliseconds, Rust
// whole seconds.
module TsRecovery {
  import opened Names
  import opened Outcome
  import Recovery

  datatype State = Pending | Approved | TimelockActive | Completed | Cancelled | Expired

  datatype Record = Record(
    newDeviceId: Name, state: State, approvals: seq<Name>, requiredApprovals: int, timelockEndsAt: Option<real>,
    initiatedAt: int, completedAt: Option<int>, cancelledAt: Option<int>)

  const DEFAULT_TIMELOCK_HOURS: real := 168.0

  function CreateRecovery(newDeviceId: Name, requiredApprovals: int, timelockHours: Option<real>, now: int)
    : Record
  {
    var hours := match timelockHours case Some(h) => h case None => DEFAULT_TIMELOCK_HOURS;
    var end := now as real + hours * 60.0 * 60.0 * 1000.0;
    Record(newDeviceId, Pending, [], requiredApprovals, Some(end), now, None, None)
  }

  predicate IsTerminal(s: State) {
    s == Completed || s == Cancelled || s == Expired
  }

  // Absent and zero are both falsy.
  function RemainingTimelock(r: Record): real {
    if r.timelockEndsAt.None? || r.timelockEndsAt.value == 0.0 then 0.0
    else if r.timelockEndsAt.value - r.initiatedAt as real > 0.0 then r.timelockEndsAt.value - r.initiatedAt as real
    else 0.0
  }

  predicate IsTimelockElapsed(r: Record, now: int) {
    r.timelockEndsAt.Some? && r.timelockEndsAt.value != 0.0 && now as real >= r.timelockEndsAt.value
  }

  function ApproveRecovery(r: Record, guardian: Name, now: int): Record {
    if r.state != Pending then r
    else if guardian in r.approvals then r
    else
      var approvals := r.approvals + [guardian];
      var reached := |approvals| >= r.requiredApprovals;
      r.(approvals := approvals,
         state := if reached then TimelockActive else Pending,
         timelockEndsAt := if reached then Some(now as real + RemainingTimelock(r)) else r.timelockEndsAt)
  }

  function StartTimelock(r: Record): Record {
    if r.state != Approved then r else r.(state := TimelockActive)
  }

  function CompleteRecovery(r: Record, now: int): Record {
    if r.state != TimelockActive then r
    else if !IsTimelockElapsed(r, now) then r
    else r.(state := Completed, completedAt := Some(now))
  }

  function CancelRecovery(r: Record, now: int): Record {
    if IsTerminal(r.state) then r else r.(state := Cancelled, cancelledAt := Some(now))
  }

  // A terminal state is stamped with the moment it was entered, and with that only.
  predicate Stamped(r: Record) {
    && (r.completedAt.Some? <==> r.state == Completed)
    && (r.cancelledAt.Some? <==> r.state == Cancelled)
  }

  lemma StampsExactly(r: Record, guardian: Name, now: int)
    requires Stamped(r)
    ensures Stamped(ApproveRecovery(r, guardian, now)) && Stamped(StartTimelock(r))
    ensures Stamped(CompleteRecovery(r, now)) && Stamped(CancelRecovery(r, now))
    ensures r.state != Completed && CompleteRecovery(r, now).state == Completed ==>
              CompleteRecovery(r, now) == r.(state := Completed, completedAt := Some(now))
    ensures r.state != Cancelled && CancelRecovery(r, now).state == Cancelled ==>
              CancelRecovery(r, now) == r.(state := Cancelled, cancelledAt := Some(now))
    ensures StartTimelock(r) == if r.state == Approved then r.(state := TimelockActive) else r
    ensures CancelRecovery(r, now) != r <==> r.state == Pending || r.state == Approved || r.state == TimelockActive
  {
  }

  lemma CreationStamped(newDeviceId: Name, requiredApprovals: int, hours: Option<real>, now: int)
    ensures var r := CreateRecovery(newDeviceId, requiredApprovals, hours, now);
            && Stamped(r) && r.state == Pending && r.approvals == [] && r.initiatedAt == now
            && r.newDeviceId == newDeviceId && r.requiredApprovals == requiredApprovals
            && r.timelockEndsAt == Some(now as real + 3_600_000.0 * (if hours.Some? then hours.value else 168.0))
  {
  }

  // The stored time encodes the configured duration, as long as it is not 0.
  lemma DurationRemains(newDeviceId: Name, requiredApprovals: int, hours: real, now: int)
    ensures var end := now as real + 3_600_000.0 * hours;
            RemainingTimelock(CreateRecovery(newDeviceId, requiredApprovals, Some(hours), now))
              == if end == 0.0 || hours <= 0.0 then 0.0 else 3_600_000.0 * hours
  {
    CreationStamped(newDeviceId, requiredApprovals, Some(hours), now);
  }

  // ----- The two machines side by side

  // Operations both machines are given, at a clock reading in milliseconds.
  datatype Op = Approve(guardian: Name, now: nat) | Complete(now: nat) | Cancel(now: nat)

  function TsStep(r: Record, op: Op): Record {
    match op
    case Approve(g, now) => ApproveRecovery(r, g, now)
    case Complete(now) => CompleteRecovery(r, now)
    case Cancel(now) => CancelRecovery(r, now)
  }

  // Rust is handed the seconds that have passed.
  function RustOp(op: Op): Recovery.Op {
    match op
    case Approve(g, now) => Recovery.ApproveOp(g, now / 1000)
    case Complete(now) => Recovery.FinalizeOp(now / 1000)
    case Cancel(_) => Recovery.CancelOp
  }

  predicate SameRequest(t: Record, r: Recovery.Request) {
    && t.newDeviceId == r.intent.newDevice
    && t.approvals == r.approvals
    && t.requiredApprovals == r.intent.quorum
    && 0 <= t.initiatedAt && r.intent.initiatedAt == t.initiatedAt / 1000
  }

  function ReleaseMillis(t: Record): int
    requires t.timelockEndsAt.Some?
  {
    t.timelockEndsAt.value.Floor
  }

  // An active record holds a whole number of milliseconds; the Rust request is
  // released at the second it falls in.
  predicate Released(t: Record, r: Recovery.Request) {
    && t.state == TimelockActive && t.timelockEndsAt.Some?
    && var end := ReleaseMillis(t);
       && t.timelockEndsAt.value == end as real && end >= 1000 * r.intent.timelock
       && r.executeAfter == Some(end / 1000)
  }

  // A pending record still encodes its duration as end minus start; an active
  // one holds the release time.
  predicate InStep(t: Record, r: Recovery.Request) {
    && SameRequest(t, r)
    && match t.state
       case Pending =>
         r.status == Recovery.Pending
         && t.timelockEndsAt == Some((t.initiatedAt + 1000 * r.intent.timelock) as real)
       case TimelockActive => r.status == Recovery.QuorumReached && Released(t, r)
       case Completed => r.status == Recovery.Executed
       case Cancelled => r.status == Recovery.Cancelled
       case _ => false
  }

  // Rust has finalized while TypeScript waits for the rest of the second.
  predicate RustAhead(t: Record, r: Recovery.Request) {
    SameRequest(t, r) && r.status == Recovery.Executed && Released(t, r)
  }

  // And then TypeScript was cancelled, which Rust no longer could be.
  predicate Apart(t: Record, r: Recovery.Request) {
    SameRequest(t, r) && r.status == Recovery.Executed && t.state == Cancelled
  }

  // In the second of the release time but before its millisecond.
  predicate Early(end: int, now: int) {
    now / 1000 == end / 1000 && now % 1000 < end % 1000
  }

  // The one operation on which the machines part.
  predicate PartsOn(t: Record, op: Op) {
    op.Complete? && t.state == TimelockActive && t.timelockEndsAt.Some? && Early(ReleaseMillis(t), op.now)
  }

  // Rust is ready from the release second on, TypeScript from the release
  // millisecond on.
  lemma ReadyExactly(end: int, now: int)
    ensures now / 1000 >= end / 1000 <==> now >= end || Early(end, now)
    ensures Early(end, now) ==> now < end
  {
  }

  // The release time is the quorum time plus whole seconds.
  lemma EarlyFromQuorum(quorumAt: nat, timelock: nat, now: nat)
    ensures Early(quorumAt + 1000 * timelock, now) <==>
              now / 1000 == quorumAt / 1000 + timelock && now % 1000 < quorumAt % 1000
    ensures (quorumAt + 1000 * timelock) / 1000 == quorumAt / 1000 + timelock
  {
  }

  // What one operation does to machines in step: either they stay so and the
  // TypeScript record is returned unchanged exactly when the Rust machine
  // reports an error, or Rust finalizes and TypeScript does not.
  predicate StepFaithful(t: Record, r: Recovery.Request, op: Op)
    requires Recovery.RequestInvariant(r)
  {
    var m := Recovery.Step(r, RustOp(op));
    && (InStep(TsStep(t, op), m.next) <==> !PartsOn(t, op))
    && (!PartsOn(t, op) ==> (TsStep(t, op) == t <==> !m.ok))
    && (PartsOn(t, op) ==> TsStep(t, op) == t && m.ok && RustAhead(t, m.next))
  }

  lemma ReleaseSum(now: nat, timelock: nat)
    ensures var v := now as real + (1000 * timelock) as real;
            && v == (now + 1000 * timelock) as real && v.Floor == now + 1000 * timelock
            && v.Floor / 1000 == now / 1000 + timelock
  {
  }

  lemma RemainingOfPending(t: Record, timelock: nat)
    requires 0 <= t.initiatedAt && 0 < timelock
    requires t.timelockEndsAt == Some((t.initiatedAt + 1000 * timelock) as real)
    ensures RemainingTimelock(t) == (1000 * timelock) as real
  {
  }

  lemma ActivationReleases(t: Record, r: Recovery.Request, now: nat)
    requires t.state == TimelockActive && t.timelockEndsAt == Some(now as real + (1000 * r.intent.timelock) as real)
    requires r.executeAfter == Some(now / 1000 + r.intent.timelock)
    ensures Released(t, r) && ReleaseMillis(t) == now + 1000 * r.intent.timelock
  {
    ReleaseSum(now, r.intent.timelock);
  }

  lemma ApproveSimulates(t: Record, r: Recovery.Request, g: Name, now: nat)
    requires Recovery.RequestInvariant(r) && InStep(t, r)
    ensures StepFaithful(t, r, Approve(g, now))
  {
    if t.state == Pending && g !in t.approvals {
      RemainingOfPending(t, r.intent.timelock);
      var t', r' := ApproveRecovery(t, g, now), Recovery.Approve(r, g, now / 1000).next;
      if |t'.approvals| >= t.requiredApprovals {
        ActivationReleases(t', r', now);
      }
    }
  }

  lemma CompleteSimulates(t: Record, r: Recovery.Request, now: nat)
    requires Recovery.RequestInvariant(r) && InStep(t, r)
    ensures StepFaithful(t, r, Complete(now))
  {
    if t.state == TimelockActive {
      ReadyExactly(ReleaseMillis(t), now);
    }
  }

  // One operation keeps the machines in step exactly when it is not the one
  // they part on.
  lemma StepSimulates(t: Record, r: Recovery.Request, op: Op)
    requires Recovery.RequestInvariant(r) && InStep(t, r)
    ensures StepFaithful(t, r, op)
  {
    match op
    case Approve(g, now) => ApproveSimulates(t, r, g, now);
    case Complete(now) => CompleteSimulates(t, r, now);
    case Cancel(_) =>
  }

  // Once Rust is ahead, TypeScript catches up by completing from the release
  // millisecond on, or is cancelled and stays apart.
  lemma AheadSteps(t: Record, r: Recovery.Request, op: Op)
    requires Recovery.RequestInvariant(r) && (RustAhead(t, r) || Apart(t, r))
    ensures var m, t' := Recovery.Step(r, RustOp(op)), TsStep(t, op);
            && !m.ok && m.next == r
            && (Apart(t, r) ==> t' == t)
            && (RustAhead(t, r) ==>
                  if op.Cancel? then Apart(t', r)
                  else if op.Complete? && op.now >= ReleaseMillis(t) then InStep(t', r)
                  else t' == t)
  {
  }

  // ----- Runs

  function TsRun(t: Record, ops: seq<Op>): Record {
    if ops == [] then t else TsStep(TsRun(t, ops[..|ops| - 1]), ops[|ops| - 1])
  }

  function RustOps(ops: seq<Op>): seq<Recovery.Op> {
    seq(|ops|, i requires 0 <= i < |ops| => RustOp(ops[i]))
  }

  lemma RustOpsPrefix(ops: seq<Op>, k: nat)
    requires k <= |ops|
    ensures RustOps(ops)[..k] == RustOps(ops[..k])
  {
  }

  // One more operation on both sides.
  lemma RunNext(t: Record, r: Recovery.Request, ops: seq<Op>)
    requires Recovery.RequestInvariant(r) && ops != []
    ensures var k := |ops| - 1;
            && TsRun(t, ops) == TsStep(TsRun(t, ops[..k]), ops[k])
            && Recovery.Run(r, RustOps(ops)) == Recovery.Step(Recovery.Run(r, RustOps(ops[..k])), RustOp(ops[k])).next
  {
    RustOpsPrefix(ops, |ops| - 1);
  }

  // Whatever the clock does, the machines are in step, or Rust has finalized
  // first, or it had when TypeScript was cancelled. So TypeScript completes only
  // what Rust has executed, and Rust cancels only what TypeScript has.
  lemma {:induction false} RunSimulates(t: Record, r: Recovery.Request, ops: seq<Op>)
    requires Recovery.RequestInvariant(r) && InStep(t, r)
    ensures var t', r' := TsRun(t, ops), Recovery.Run(r, RustOps(ops));
            && (InStep(t', r') || RustAhead(t', r') || Apart(t', r'))
            && (t'.state == Completed ==> r'.status == Recovery.Executed)
            && (r'.status == Recovery.Cancelled ==> t'.state == Cancelled)
            && t'.state != Approved && StartTimelock(t') == t'
  {
    if ops != [] {
      var k := |ops| - 1;
      RunSimulates(t, r, ops[..k]);
      RunNext(t, r, ops);
      var tk, rk := TsRun(t, ops[..k]), Recovery.Run(r, RustOps(ops[..k]));
      if InStep(tk, rk) {
        StepSimulates(tk, rk, ops[k]);
      } else {
        AheadSteps(tk, rk, ops[k]);
      }
    }
  }

  predicate InStepThrough(t: Record, r: Recovery.Request, ops: seq<Op>, n: nat)
    requires Recovery.RequestInvariant(r) && n <= |ops|
  {
    forall k :: 0 <= k <= n ==> InStep(TsRun(t, ops[..k]), Recovery.Run(r, RustOps(ops[..k])))
  }

  predicate NeverParts(t: Record, ops: seq<Op>, n: nat)
    requires n <= |ops|
  {
    forall k :: 0 <= k < n ==> !PartsOn(TsRun(t, ops[..k]), ops[k])
  }

  // They are in step at every moment exactly when they part on no operation.
  lemma {:induction false} InStepExactly(t: Record, r: Recovery.Request, ops: seq<Op>, n: nat)
    requires Recovery.RequestInvariant(r) && InStep(t, r) && n <= |ops|
    ensures InStepThrough(t, r, ops, n) <==> NeverParts(t, ops, n)
  {
    if n == 0 {
      assert ops[..0] == [] && RustOps([]) == [];
    } else {
      InStepExactly(t, r, ops, n - 1);
      InStepNext(t, r, ops, n - 1);
    }
  }

  lemma ThroughNext(t: Record, r: Recovery.Request, ops: seq<Op>, k: nat)
    requires Recovery.RequestInvariant(r) && k < |ops|
    ensures InStepThrough(t, r, ops, k + 1) <==>
              InStepThrough(t, r, ops, k) && InStep(TsRun(t, ops[..k + 1]), Recovery.Run(r, RustOps(ops[..k + 1])))
  {
  }

  lemma NeverPartsNext(t: Record, ops: seq<Op>, k: nat)
    requires k < |ops|
    ensures NeverParts(t, ops, k + 1) <==> NeverParts(t, ops, k) && !PartsOn(TsRun(t, ops[..k]), ops[k])
  {
  }

  lemma StepOfRun(t: Record, r: Recovery.Request, ops: seq<Op>, k: nat)
    requires Recovery.RequestInvariant(r) && k < |ops|
    requires InStep(TsRun(t, ops[..k]), Recovery.Run(r, RustOps(ops[..k])))
    ensures InStep(TsRun(t, ops[..k + 1]), Recovery.Run(r, RustOps(ops[..k + 1]))) <==>
              !PartsOn(TsRun(t, ops[..k]), ops[k])
    ensures !PartsOn(TsRun(t, ops[..k]), ops[k]) ==>
              (TsRun(t, ops[..k + 1]) == TsRun(t, ops[..k]) <==> !Recovery.SucceedsAt(r, RustOps(ops), k))
  {
    assert ops[..k + 1][..k] == ops[..k];
    RunNext(t, r, ops[..k + 1]);
    RustOpsPrefix(ops, k);
    StepSimulates(TsRun(t, ops[..k]), Recovery.Run(r, RustOps(ops[..k])), ops[k]);
  }

  lemma InStepNext(t: Record, r: Recovery.Request, ops: seq<Op>, k: nat)
    requires Recovery.RequestInvariant(r) && k < |ops|
    requires InStepThrough(t, r, ops, k) <==> NeverParts(t, ops, k)
    ensures InStepThrough(t, r, ops, k + 1) <==> NeverParts(t, ops, k + 1)
  {
    ThroughNext(t, r, ops, k);
    NeverPartsNext(t, ops, k);
    if InStepThrough(t, r, ops, k) {
      StepOfRun(t, r, ops, k);
    }
  }

  // ----- From creation

  // The approval on which the record becomes active.
  predicate Activates(t: Record, ops: seq<Op>, j: nat) {
    j < |ops| && ops[j].Approve?
    && TsRun(t, ops[..j]).state == Pending && TsRun(t, ops[..j + 1]).state == TimelockActive
  }

  lemma {:induction false} NeverPendingAgain(t: Record, ops: seq<Op>, a: nat, b: nat)
    requires a <= b <= |ops| && TsRun(t, ops[..a]).state != Pending
    ensures TsRun(t, ops[..b]).state != Pending
    decreases b
  {
    if a < b {
      NeverPendingAgain(t, ops, a, b - 1);
      assert ops[..b][..b - 1] == ops[..b - 1];
    }
  }

  lemma OneActivation(t: Record, ops: seq<Op>, j: nat, j': nat)
    requires Activates(t, ops, j) && Activates(t, ops, j')
    ensures j == j'
  {
    if j < j' { NeverPendingAgain(t, ops, j + 1, j'); }
    if j' < j { NeverPendingAgain(t, ops, j' + 1, j); }
  }

  lemma ActivatedAt(t: Record, r: Recovery.Request, op: Op)
    requires Recovery.RequestInvariant(r) && (InStep(t, r) || RustAhead(t, r) || Apart(t, r))
    requires t.state != TimelockActive && TsStep(t, op).state == TimelockActive
    ensures t.state == Pending && op.Approve? && TsStep(t, op).timelockEndsAt.Some?
    ensures ReleaseMillis(TsStep(t, op)) == op.now + 1000 * r.intent.timelock
  {
    RemainingOfPending(t, r.intent.timelock);
    ReleaseSum(op.now, r.intent.timelock);
  }

  // An active record was activated by one of the operations, and is released
  // the timelock after it.
  lemma {:induction false} ReleaseOrigin(t: Record, r: Recovery.Request, ops: seq<Op>, k: nat) returns (j: nat)
    requires Recovery.RequestInvariant(r) && InStep(t, r) && t.state == Pending
    requires k <= |ops| && TsRun(t, ops[..k]).state == TimelockActive && TsRun(t, ops[..k]).timelockEndsAt.Some?
    ensures j < k && Activates(t, ops, j)
    ensures ReleaseMillis(TsRun(t, ops[..k])) == ops[j].now + 1000 * r.intent.timelock
    decreases k
  {
    assert k > 0 by { assert ops[..0] == []; }
    if TsRun(t, ops[..k - 1]).state == TimelockActive {
      ActiveStill(t, ops, k - 1);
      j := ReleaseOrigin(t, r, ops, k - 1);
    } else {
      j := k - 1;
      ActivatedHere(t, r, ops, j);
    }
  }

  lemma ActivatedHere(t: Record, r: Recovery.Request, ops: seq<Op>, j: nat)
    requires Recovery.RequestInvariant(r) && InStep(t, r) && j < |ops|
    requires TsRun(t, ops[..j]).state != TimelockActive && TsRun(t, ops[..j + 1]).state == TimelockActive
    ensures Activates(t, ops, j) && TsRun(t, ops[..j + 1]).timelockEndsAt.Some?
    ensures ReleaseMillis(TsRun(t, ops[..j + 1])) == ops[j].now + 1000 * r.intent.timelock
  {
    TsRunNext(t, ops, j);
    RunSimulates(t, r, ops[..j]);
    ActivatedAt(TsRun(t, ops[..j]), Recovery.Run(r, RustOps(ops[..j])), ops[j]);
  }

  lemma ActiveStill(t: Record, ops: seq<Op>, k: nat)
    requires k < |ops| && TsRun(t, ops[..k]).state == TimelockActive && TsRun(t, ops[..k + 1]).state == TimelockActive
    ensures TsRun(t, ops[..k + 1]) == TsRun(t, ops[..k])
  {
    TsRunNext(t, ops, k);
    StaysActive(TsRun(t, ops[..k]), ops[k]);
  }

  lemma TsRunNext(t: Record, ops: seq<Op>, k: nat)
    requires k < |ops|
    ensures TsRun(t, ops[..k + 1]) == TsStep(TsRun(t, ops[..k]), ops[k])
  {
    assert ops[..k + 1][..k] == ops[..k];
  }

  lemma StaysActive(t: Record, op: Op)
    requires t.state == TimelockActive && TsStep(t, op).state == TimelockActive
    ensures TsStep(t, op) == t
  {
  }

  // Created alike: the Rust core accepts the intent, and the duration in hours
  // is its timelock in seconds.
  predicate CreatedAlike(i: Recovery.Intent, guardians: nat, hours: real, createdAt: nat) {
    Recovery.Initiate(i, guardians).Ok? && i.initiatedAt == createdAt / 1000 && hours * 3600.0 == i.timelock as real
  }

  lemma CreationInStep(i: Recovery.Intent, guardians: nat, hours: real, createdAt: nat)
    requires CreatedAlike(i, guardians, hours, createdAt)
    ensures var r := Recovery.Initiate(i, guardians).value;
            Recovery.RequestInvariant(r)
            && InStep(CreateRecovery(i.newDevice, i.quorum, Some(hours), createdAt), r)
  {
    Recovery.InitiationEstablishes(i, guardians);
  }

  // Operation k tries to complete the record that operation j activated, too
  // early in the second the timelock ends.
  predicate TriedEarly(t: Record, ops: seq<Op>, j: nat, k: nat, timelock: nat)
    requires j < k < |ops|
  {
    && Activates(t, ops, j) && ops[k].Complete? && TsRun(t, ops[..k]).state == TimelockActive
    && ops[k].now / 1000 == ops[j].now / 1000 + timelock && ops[k].now % 1000 < ops[j].now % 1000
  }

  lemma {:induction false} PartsExactly(t: Record, r: Recovery.Request, ops: seq<Op>, k: nat)
    requires Recovery.RequestInvariant(r) && InStep(t, r) && t.state == Pending && k < |ops|
    ensures PartsOn(TsRun(t, ops[..k]), ops[k]) <==>
              exists j :: 0 <= j < k && TriedEarly(t, ops, j, k, r.intent.timelock)
  {
    var tk := TsRun(t, ops[..k]);
    if ops[k].Complete? && tk.state == TimelockActive {
      RunSimulates(t, r, ops[..k]);
      var j := ReleaseOrigin(t, r, ops, k);
      EarlyFromQuorum(ops[j].now, r.intent.timelock, ops[k].now);
      assert PartsOn(tk, ops[k]) <==> TriedEarly(t, ops, j, k, r.intent.timelock);
      forall j' | 0 <= j' < k && TriedEarly(t, ops, j', k, r.intent.timelock) ensures j' == j {
        OneActivation(t, ops, j, j');
      }
    }
  }

  predicate NeverEarly(t: Record, ops: seq<Op>, timelock: nat) {
    forall j, k :: 0 <= j < k < |ops| ==> !TriedEarly(t, ops, j, k, timelock)
  }

  lemma NeverPartsExactly(t: Record, r: Recovery.Request, ops: seq<Op>)
    requires Recovery.RequestInvariant(r) && InStep(t, r) && t.state == Pending
    ensures NeverParts(t, ops, |ops|) <==> NeverEarly(t, ops, r.intent.timelock)
  {
    forall k | 0 <= k < |ops|
      ensures PartsOn(TsRun(t, ops[..k]), ops[k]) <==>
                exists j :: 0 <= j < k && TriedEarly(t, ops, j, k, r.intent.timelock)
    {
      PartsExactly(t, r, ops, k);
    }
  }

  predicate NoOpsAreErrors(t: Record, r: Recovery.Request, ops: seq<Op>)
    requires Recovery.RequestInvariant(r)
  {
    forall k :: 0 <= k < |ops| ==>
      (TsRun(t, ops[..k + 1]) == TsRun(t, ops[..k]) <==> !Recovery.SucceedsAt(r, RustOps(ops), k))
  }

  lemma InStepNoOps(t: Record, r: Recovery.Request, ops: seq<Op>)
    requires Recovery.RequestInvariant(r) && InStepThrough(t, r, ops, |ops|)
    ensures NoOpsAreErrors(t, r, ops)
  {
    forall k | 0 <= k < |ops|
      ensures TsRun(t, ops[..k + 1]) == TsRun(t, ops[..k]) <==> !Recovery.SucceedsAt(r, RustOps(ops), k)
    {
      assert InStep(TsRun(t, ops[..k]), Recovery.Run(r, RustOps(ops[..k])));
      assert InStep(TsRun(t, ops[..k + 1]), Recovery.Run(r, RustOps(ops[..k + 1])));
      StepOfRun(t, r, ops, k);
    }
  }

  // How the two machines run side by side. They are in step at every moment
  // exactly when no completion is tried in the second the timelock ends but at an
  // earlier millisecond of it than that of the approval that reached the quorum;
  // an operation is then a no-op exactly when Rust reports an error. In any case
  // TypeScript completes only what Rust has executed, Rust cancels only what
  // TypeScript has, and the record is never in the `approved` state, so that
  // `startTimelock` never acts.
  predicate RunAlike(t: Record, r: Recovery.Request, ops: seq<Op>)
    requires Recovery.RequestInvariant(r)
  {
    var t', r' := TsRun(t, ops), Recovery.Run(r, RustOps(ops));
    && (InStepThrough(t, r, ops, |ops|) <==> NeverEarly(t, ops, r.intent.timelock))
    && (InStepThrough(t, r, ops, |ops|) ==> NoOpsAreErrors(t, r, ops))
    && (t'.state == Completed ==> r'.status == Recovery.Executed)
    && (r'.status == Recovery.Cancelled ==> t'.state == Cancelled)
    && t'.state != Approved && StartTimelock(t') == t'
  }

  lemma {:induction false} PendingRunsAlike(t: Record, r: Recovery.Request, ops: seq<Op>)
    requires Recovery.RequestInvariant(r) && InStep(t, r) && t.state == Pending
    ensures RunAlike(t, r, ops)
  {
    RunSimulates(t, r, ops);
    InStepExactly(t, r, ops, |ops|);
    NeverPartsExactly(t, r, ops);
    if InStepThrough(t, r, ops, |ops|) {
      InStepNoOps(t, r, ops);
    }
  }

  // From creation on, over every run of operations with any clock readings.
  lemma {:induction false} RecoveriesStayInStep(
    i: Recovery.Intent, guardians: nat, hours: real, createdAt: nat, ops: seq<Op>)
    requires CreatedAlike(i, guardians, hours, createdAt)
    ensures var t := CreateRecovery(i.newDevice, i.quorum, Some(hours), createdAt);
            var r := Recovery.Initiate(i, guardians).value;
            Recovery.RequestInvariant(r) && InStep(t, r) && RunAlike(t, r, ops)
  {
    CreationInStep(i, guardians, hours, createdAt);
    PendingRunsAlike(CreateRecovery(i.newDevice, i.quorum, Some(hours), createdAt),
                     Recovery.Initiate(i, guardians).value, ops);
  }

  // A concrete such run: approved 999 ms into a second and completed as the
  // release second begins, Rust finalizes, TypeScript waits, and is cancelled.
  lemma PartedRun(i: Recovery.Intent) returns (ops: seq<Op>)
    requires i.newDevice != [] && i.replacedDevice.None? && i.quorum == 1 && i.timelock == 3600 && i.initiatedAt == 0
    ensures CreatedAlike(i, 1, 1.0, 0)
    ensures var t, r := CreateRecovery(i.newDevice, i.quorum, Some(1.0), 0), Recovery.Initiate(i, 1).value;
            && Recovery.RequestInvariant(r)
            && Recovery.Run(r, RustOps(ops)).status == Recovery.Executed && TsRun(t, ops).state == Cancelled
  {
    CreationInStep(i, 1, 1.0, 0);
    var t, r := CreateRecovery(i.newDevice, i.quorum, Some(1.0), 0), Recovery.Initiate(i, 1).value;
    ops := [Approve([103], 999)];
    RunNext(t, r, ops);
    assert ops[..0] == [] && RustOps([]) == [];
    var active := TsRun(t, ops);
    ActivationReleases(active, Recovery.Run(r, RustOps(ops)), 999);
    ops := RunMore(t, r, ops, Complete(3_600_000));
    ops := RunMore(t, r, ops, Cancel(3_600_001));
  }

  lemma RunMore(t: Record, r: Recovery.Request, ops: seq<Op>, op: Op) returns (ops': seq<Op>)
    requires Recovery.RequestInvariant(r)
    ensures ops' == ops + [op] && TsRun(t, ops') == TsStep(TsRun(t, ops), op)
    ensures Recovery.Run(r, RustOps(ops')) == Recovery.Step(Recovery.Run(r, RustOps(ops)), RustOp(op)).next
  {
    ops' := ops + [op];
    assert ops'[..|ops|] == ops;
    RunNext(t, r, ops');
  }
}
