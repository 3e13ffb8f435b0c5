// The guardian recovery machine of the Rust core: snapshot quorum, lazy
// promotion at an inclusive timelock boundary, and the canonical bytes that
// identify a request.
module Recovery {
  import opened Bytes
  import opened Names
  import opened Outcome
  import opened Serialization

  const MIN_TIMELOCK_SECONDS: nat := 3_600

  datatype RecoveryStatus = NoRequest | Pending | QuorumReached | Executable | Executed | Cancelled

  datatype Action = InitiateAction | ApproveAction | CancelAction | FinalizeAction

  predicate IsLive(s: RecoveryStatus) {
    s == Pending || s == QuorumReached || s == Executable
  }

  predicate Allows(s: RecoveryStatus, action: Action) {
    match action
    case ApproveAction => s == Pending
    case CancelAction => IsLive(s)
    case FinalizeAction => s == Executable
    case InitiateAction => !IsLive(s)
  }

  // Which action which status allows.
  lemma AllowsExactly(s: RecoveryStatus)
    ensures Allows(s, InitiateAction) <==> s == NoRequest || s == Executed || s == Cancelled
    ensures Allows(s, ApproveAction) <==> s == Pending
    ensures Allows(s, CancelAction) <==> s == Pending || s == QuorumReached || s == Executable
    ensures Allows(s, FinalizeAction) <==> s == Executable
  {
  }

  datatype RecoveryError =
    | InvalidInput
    | ThresholdNotMet(required: nat, actual: nat)
    | TimelockActive(remaining: nat)
    | InvalidStateTransition(from: RecoveryStatus)
    | DuplicateApproval(guardian: Name)

  // What is fixed at initiation.
  datatype Intent = Intent(
    id: nat, wallet: Name, initiator: Name, replacedDevice: Option<Name>, newDevice: Name,
    initiatedAt: nat, quorum: nat, timelock: nat)

  datatype Request = Request(intent: Intent, executeAfter: Option<nat>, approvals: seq<Name>, status: RecoveryStatus)

  function Initiate(i: Intent, guardians: nat): Result<Request, RecoveryError> {
    if i.newDevice == [] then Err(InvalidInput)
    else if i.replacedDevice == Some(i.newDevice) then Err(InvalidInput)
    else if i.quorum == 0 then Err(InvalidInput)
    else if i.quorum > guardians then Err(ThresholdNotMet(i.quorum, guardians))
    else if i.timelock < MIN_TIMELOCK_SECONDS then Err(TimelockActive(MIN_TIMELOCK_SECONDS - i.timelock))
    else Ok(Request(i, None, [], Pending))
  }

  function EffectiveStatus(r: Request, now: nat): RecoveryStatus {
    if r.status == QuorumReached && r.executeAfter.Some? && now >= r.executeAfter.value then Executable
    else r.status
  }

  datatype Stepped<R> = Stepped(result: Result<R, RecoveryError>, next: Request)

  function Approve(r: Request, guardian: Name, now: nat): Stepped<()> {
    if r.status != Pending then Stepped(Err(InvalidStateTransition(r.status)), r)
    else if guardian in r.approvals then Stepped(Err(DuplicateApproval(guardian)), r)
    else
      var r' := r.(approvals := r.approvals + [guardian]);
      Stepped(Ok(()),
              if |r'.approvals| >= r.intent.quorum
              then r'.(status := QuorumReached, executeAfter := Some(now + r.intent.timelock))
              else r')
  }

  function Cancel(r: Request): Stepped<()> {
    if !Allows(r.status, CancelAction) then Stepped(Err(InvalidStateTransition(r.status)), r)
    else Stepped(Ok(()), r.(status := Cancelled))
  }

  datatype Replacement = Replacement(replaced: Option<Name>, added: Name)

  function Finalize(r: Request, now: nat): Stepped<Replacement>
    requires r.status == QuorumReached ==> r.executeAfter.Some?
  {
    match EffectiveStatus(r, now)
    case Executable => Stepped(Ok(Replacement(r.intent.replacedDevice, r.intent.newDevice)), r.(status := Executed))
    case QuorumReached =>
      var remaining := if r.executeAfter.value >= now then r.executeAfter.value - now else 0;
      Stepped(Err(TimelockActive(remaining)), r)
    case other => Stepped(Err(InvalidStateTransition(other)), r)
  }

  class RecoveryRequest {
    const intent: Intent
    var executeAfter: Option<nat>
    var approvals: seq<Name>
    var status: RecoveryStatus

    ghost function View(): Request
      reads this
    {
      Request(intent, executeAfter, approvals, status)
    }

    constructor (intent: Intent)
      ensures View() == Request(intent, None, [], Pending)
    {
      this.intent := intent;
      executeAfter := None;
      approvals := [];
      status := Pending;
    }

    static method InitiateRequest(i: Intent, guardians: nat) returns (r: Result<RecoveryRequest, RecoveryError>)
      ensures match Initiate(i, guardians)
              case Ok(q) => r.Ok? && fresh(r.value) && r.value.View() == q
              case Err(e) => r == Err(e)
    {
      if i.newDevice == [] { return Err(InvalidInput); }
      if i.replacedDevice == Some(i.newDevice) { return Err(InvalidInput); }
      if i.quorum == 0 { return Err(InvalidInput); }
      if i.quorum > guardians { return Err(ThresholdNotMet(i.quorum, guardians)); }
      if i.timelock < MIN_TIMELOCK_SECONDS { return Err(TimelockActive(MIN_TIMELOCK_SECONDS - i.timelock)); }
      var request := new RecoveryRequest(i);
      r := Ok(request);
    }

    method ApproveBy(guardian: Name, now: nat) returns (r: Result<(), RecoveryError>)
      modifies this
      ensures Stepped(r, View()) == Approve(old(View()), guardian, now)
    {
      if status != Pending { return Err(InvalidStateTransition(status)); }
      if guardian in approvals { return Err(DuplicateApproval(guardian)); }
      approvals := approvals + [guardian];
      if |approvals| >= intent.quorum {
        status := QuorumReached;
        executeAfter := Some(now + intent.timelock);
      }
      r := Ok(());
    }

    method CancelRequest() returns (r: Result<(), RecoveryError>)
      modifies this
      ensures Stepped(r, View()) == Cancel(old(View()))
    {
      if !Allows(status, CancelAction) { return Err(InvalidStateTransition(status)); }
      status := Cancelled;
      r := Ok(());
    }

    method FinalizeAt(now: nat) returns (r: Result<Replacement, RecoveryError>)
      requires status == QuorumReached ==> executeAfter.Some?
      modifies this
      ensures Stepped(r, View()) == Finalize(old(View()), now)
    {
      var effective := status;
      if status == QuorumReached && executeAfter.Some? && now >= executeAfter.value {
        effective := Executable;
      }
      if effective == QuorumReached {
        var remaining := if executeAfter.value >= now then executeAfter.value - now else 0;
        return Err(TimelockActive(remaining));
      }
      if effective != Executable {
        return Err(InvalidStateTransition(effective));
      }
      status := Executed;
      r := Ok(Replacement(intent.replacedDevice, intent.newDevice));
    }

    // The domain tag is a constant of the crate, a parameter here. None is the
    // panic of a quorum that does not fit a byte.
    method CanonicalBytes(tag: Bytes) returns (r: Option<Bytes>)
      requires TypedIntent(intent)
      ensures r == if intent.quorum <= 255 then Some(IntentBytes(tag, intent)) else None
    {
      var encoder := new Encoder();
      encoder.WriteRaw(tag);
      WriteSubject(encoder, tag);
      if intent.quorum > 255 {
        return None;
      }
      ghost var fs := Written(tag, SubjectFields(intent), U8(intent.quorum));
      encoder.WriteU8(intent.quorum);
      fs := Written(tag, fs, U64(intent.timelock));
      encoder.WriteU64(intent.timelock);
      SubjectComesFirst(intent);
      r := Some(encoder.buf);
    }

    // What comes before the quorum.
    method WriteSubject(encoder: Encoder, tag: Bytes)
      requires TypedIntent(intent) && encoder.buf == tag
      modifies encoder
      ensures encoder.buf == tag + FieldsBytes(SubjectFields(intent))
    {
      encoder.WriteU8(1);
      encoder.WriteU64(intent.id);
      encoder.WriteBytes(intent.wallet);
      encoder.WriteBytes(intent.initiator);
      encoder.WriteBytes(ReplacedBytes(intent));
      encoder.WriteBytes(intent.newDevice);
      encoder.WriteU64(intent.initiatedAt);
      SubjectAppended(tag, intent);
    }
  }

  lemma SubjectAppended(tag: Bytes, i: Intent)
    ensures tag + [1] + BE(i.id, 8) + BlobBytes(i.wallet) + BlobBytes(i.initiator) + BlobBytes(ReplacedBytes(i))
            + BlobBytes(i.newDevice) + BE(i.initiatedAt, 8)
         == tag + FieldsBytes(SubjectFields(i))
  {
    assert tag + FieldsBytes([]) == tag;
    var fs := Written(tag, [], U8(1));
    fs := Written(tag, fs, U64(i.id));
    fs := Written(tag, fs, Blob(i.wallet));
    fs := Written(tag, fs, Blob(i.initiator));
    fs := Written(tag, fs, Blob(ReplacedBytes(i)));
    fs := Written(tag, fs, Blob(i.newDevice));
    fs := Written(tag, fs, U64(i.initiatedAt));
    assert fs == SubjectFields(i);
  }

  // The field list after one more write.
  lemma Written(tag: Bytes, fs: seq<Field>, f: Field) returns (fs': seq<Field>)
    ensures fs' == fs + [f]
    ensures tag + FieldsBytes(fs) + FieldBytes(f) == tag + FieldsBytes(fs')
  {
    fs' := fs + [f];
    FieldsSnoc(fs, f);
  }

  // ----- Runs

  predicate RequestInvariant(r: Request) {
    && 0 < r.intent.quorum && MIN_TIMELOCK_SECONDS <= r.intent.timelock
    && DistinctNames(r.approvals) && |r.approvals| <= r.intent.quorum
    && r.status != Executable && r.status != NoRequest
    && (r.executeAfter.Some? <==> |r.approvals| == r.intent.quorum)
    && (r.status == Pending ==> |r.approvals| < r.intent.quorum)
    && (r.status == QuorumReached || r.status == Executed ==> |r.approvals| == r.intent.quorum)
  }

  datatype Op = ApproveOp(guardian: Name, now: nat) | CancelOp | FinalizeOp(now: nat)

  datatype Moved = Moved(ok: bool, next: Request)

  function Step(r: Request, op: Op): Moved
    requires RequestInvariant(r)
  {
    match op
    case ApproveOp(g, now) => var s := Approve(r, g, now); Moved(s.result.Ok?, s.next)
    case CancelOp => var s := Cancel(r); Moved(s.result.Ok?, s.next)
    case FinalizeOp(now) => var s := Finalize(r, now); Moved(s.result.Ok?, s.next)
  }

  predicate Terminal(r: Request) {
    r.status == Executed || r.status == Cancelled
  }

  // A step succeeds exactly when the effective status allows the action and,
  // for an approval, the guardian is new; a failed step changes nothing.
  lemma StepKeeps(r: Request, op: Op)
    requires RequestInvariant(r)
    ensures var s := Step(r, op);
            && RequestInvariant(s.next) && s.next.intent == r.intent
            && (!s.ok ==> s.next == r)
            && (Terminal(r) ==> !s.ok)
            && (r.executeAfter.Some? ==> s.next.executeAfter == r.executeAfter && s.next.approvals == r.approvals)
            && (s.ok <==> match op
                          case ApproveOp(g, now) => Allows(EffectiveStatus(r, now), ApproveAction) && g !in r.approvals
                          case CancelOp => Allows(r.status, CancelAction)
                          case FinalizeOp(now) => Allows(EffectiveStatus(r, now), FinalizeAction))
            && (s.ok ==> Weight(s.next) == Weight(r) + 1)
  {
  }

  // Approvals given plus one for being terminal.
  function Weight(r: Request): nat {
    |r.approvals| + if Terminal(r) then 1 else 0
  }

  function Run(r: Request, ops: seq<Op>): (r': Request)
    requires RequestInvariant(r)
    ensures RequestInvariant(r') && r'.intent == r.intent
  {
    if ops == [] then r
    else
      var before := Run(r, ops[..|ops| - 1]);
      StepKeeps(before, ops[|ops| - 1]);
      Step(before, ops[|ops| - 1]).next
  }

  function At(r: Request, ops: seq<Op>, k: nat): (r': Request)
    requires RequestInvariant(r) && k <= |ops|
    ensures RequestInvariant(r') && r'.intent == r.intent
  {
    Run(r, ops[..k])
  }

  lemma AtNext(r: Request, ops: seq<Op>, k: nat)
    requires RequestInvariant(r) && k < |ops|
    ensures At(r, ops, k + 1) == Step(At(r, ops, k), ops[k]).next
  {
    assert ops[..k + 1][..k] == ops[..k];
  }

  predicate SucceedsAt(r: Request, ops: seq<Op>, k: nat)
    requires RequestInvariant(r) && k < |ops|
  {
    Step(At(r, ops, k), ops[k]).ok
  }

  lemma InitiationEstablishes(i: Intent, guardians: nat)
    ensures Initiate(i, guardians).Ok? ==> RequestInvariant(Initiate(i, guardians).value)
    ensures Initiate(i, guardians).Ok? <==>
              i.newDevice != [] && i.replacedDevice != Some(i.newDevice) && 1 <= i.quorum <= guardians
              && i.timelock >= MIN_TIMELOCK_SECONDS
  {
  }

  function Successes(r: Request, ops: seq<Op>): nat
    requires RequestInvariant(r)
  {
    if ops == [] then 0
    else Successes(r, ops[..|ops| - 1]) + if SucceedsAt(r, ops, |ops| - 1) then 1 else 0
  }

  // Successful operations are counted exactly by what they leave behind, so a
  // fresh request takes at most quorum + 1 of them.
  lemma {:induction false} RunLengthBound(r: Request, ops: seq<Op>)
    requires RequestInvariant(r) && r.approvals == [] && r.status == Pending
    ensures Successes(r, ops) == Weight(Run(r, ops)) <= r.intent.quorum + 1
  {
    if ops != [] {
      RunLengthBound(r, ops[..|ops| - 1]);
      StepKeeps(At(r, ops, |ops| - 1), ops[|ops| - 1]);
    }
  }

  lemma TerminalStep(r: Request, op: Op)
    requires RequestInvariant(r) && Terminal(r)
    ensures Step(r, op) == Moved(false, r)
  {
  }

  lemma TerminalAtNext(r: Request, ops: seq<Op>, k: nat)
    requires RequestInvariant(r) && k < |ops| && Terminal(At(r, ops, k))
    ensures At(r, ops, k + 1) == At(r, ops, k)
  {
    AtNext(r, ops, k);
    TerminalStep(At(r, ops, k), ops[k]);
  }

  // Terminal states are frozen.
  lemma {:induction false} TerminalFrozen(r: Request, ops: seq<Op>, i: nat, j: nat)
    requires RequestInvariant(r) && i <= j <= |ops| && Terminal(At(r, ops, i))
    ensures At(r, ops, j) == At(r, ops, i)
    decreases j
  {
    if i < j {
      TerminalFrozen(r, ops, i, j - 1);
      TerminalAtNext(r, ops, j - 1);
    }
  }

  // The operation is the approval that completes the quorum.
  predicate CompletesQuorum(r: Request, op: Op)
    requires RequestInvariant(r)
  {
    && op.ApproveOp? && Step(r, op).ok
    && |r.approvals| + 1 == |Step(r, op).next.approvals| == r.intent.quorum
  }

  predicate QuorumAt(r: Request, ops: seq<Op>, j: nat)
    requires RequestInvariant(r)
  {
    j < |ops| && CompletesQuorum(At(r, ops, j), ops[j])
  }

  // A release time appears only in that approval, and then stays.
  lemma ReleaseTimeStep(r: Request, op: Op)
    requires RequestInvariant(r)
    ensures r.executeAfter.Some? ==> Step(r, op).next.executeAfter == r.executeAfter
    ensures r.executeAfter.None? && Step(r, op).next.executeAfter.Some? ==>
              CompletesQuorum(r, op) && Step(r, op).next.executeAfter == Some(op.now + r.intent.timelock)
  {
  }

  lemma PrefixQuorum(r: Request, ops: seq<Op>, k: nat, j: nat)
    requires RequestInvariant(r) && k <= |ops| && QuorumAt(r, ops[..k], j)
    ensures QuorumAt(r, ops, j)
  {
    assert ops[..k][..j] == ops[..j];
  }

  lemma LastKeepsRelease(r: Request, ops: seq<Op>)
    requires RequestInvariant(r) && ops != [] && Run(r, ops[..|ops| - 1]).executeAfter.Some?
    ensures Run(r, ops).executeAfter == Run(r, ops[..|ops| - 1]).executeAfter
  {
    ReleaseTimeStep(Run(r, ops[..|ops| - 1]), ops[|ops| - 1]);
  }

  lemma LastReleases(r: Request, ops: seq<Op>, s: Request, op: Op)
    requires RequestInvariant(r) && ops != [] && s == Run(r, ops[..|ops| - 1]) && op == ops[|ops| - 1]
    requires s.executeAfter.None? && Run(r, ops).executeAfter.Some?
    ensures QuorumAt(r, ops, |ops| - 1) && Run(r, ops).executeAfter == Some(op.now + r.intent.timelock)
  {
    ReleaseTimeStep(s, op);
    assert Run(r, ops) == Step(s, op).next;
    assert At(r, ops, |ops| - 1) == s;
  }

  lemma {:induction false} ReleaseTimeOrigin(r: Request, ops: seq<Op>) returns (j: nat)
    requires RequestInvariant(r) && r.executeAfter.None? && Run(r, ops).executeAfter.Some?
    ensures QuorumAt(r, ops, j)
    ensures Run(r, ops).executeAfter == Some(ops[j].now + r.intent.timelock)
  {
    j := 0;
    if ops != [] {
      var k := |ops| - 1;
      if Run(r, ops[..k]).executeAfter.Some? {
        LastKeepsRelease(r, ops);
        j := ReleaseTimeOrigin(r, ops[..k]);
        PrefixQuorum(r, ops, k, j);
        assert ops[..k][j] == ops[j];
      } else {
        j := k;
        LastReleases(r, ops, Run(r, ops[..k]), ops[k]);
      }
    }
  }

  // Execution is entered only by a finalization at or after the release time.
  lemma ExecutionStep(r: Request, op: Op)
    requires RequestInvariant(r) && r.status != Executed && Step(r, op).next.status == Executed
    ensures op.FinalizeOp? && Step(r, op).ok && r.executeAfter.Some? && op.now >= r.executeAfter.value
  {
  }

  // An executed request went through a full quorum of distinct guardians and
  // was finalized no earlier than the quorum time plus its snapshot timelock.
  lemma {:induction false} ExecutionWasEarned(r: Request, ops: seq<Op>) returns (j: nat, k: nat)
    requires RequestInvariant(r) && r.approvals == [] && r.status == Pending && Run(r, ops).status == Executed
    ensures QuorumAt(r, ops, j) && j < k < |ops| && ops[k].FinalizeOp? && SucceedsAt(r, ops, k)
    ensures ops[k].now >= ops[j].now + r.intent.timelock && r.intent.timelock >= MIN_TIMELOCK_SECONDS
    ensures |Run(r, ops).approvals| == r.intent.quorum && DistinctNames(Run(r, ops).approvals)
  {
    j, k := 0, 0;
    if ops != [] {
      var last := |ops| - 1;
      var before := Run(r, ops[..last]);
      if before.status == Executed {
        j, k := ExecutionWasEarned(r, ops[..last]);
        assert ops[..last][..k] == ops[..k];
      } else {
        ExecutionStep(before, ops[last]);
        j := ReleaseTimeOrigin(r, ops[..last]);
        k := last;
      }
      PrefixQuorum(r, ops, last, j);
    }
  }

  // ----- What the operations return

  // Which guard refuses to open a request, and with which numbers.
  lemma InitiationRefusals(i: Intent, guardians: nat)
    ensures Initiate(i, guardians).Ok? ==> Initiate(i, guardians).value == Request(i, None, [], Pending)
    ensures var sound := i.newDevice != [] && i.replacedDevice != Some(i.newDevice) && 0 < i.quorum;
            && (Initiate(i, guardians) == Err(InvalidInput) <==> !sound)
            && (Initiate(i, guardians) == Err(ThresholdNotMet(i.quorum, guardians)) <==> sound && guardians < i.quorum)
            && (forall n :: Initiate(i, guardians) == Err(TimelockActive(n)) <==>
                  sound && i.quorum <= guardians && i.timelock < 3_600 && n == 3_600 - i.timelock)
  {
  }

  // An operation that the status does not allow reports that status; a second
  // approval by a guardian names the guardian; an early finalization reports the
  // time that is left.
  lemma Refusals(r: Request, g: Name, now: nat)
    requires RequestInvariant(r)
    ensures r.status != Pending ==> Approve(r, g, now).result == Err(InvalidStateTransition(r.status))
    ensures r.status == Pending && g in r.approvals ==> Approve(r, g, now).result == Err(DuplicateApproval(g))
    ensures r.status == Executed || r.status == Cancelled ==> Cancel(r).result == Err(InvalidStateTransition(r.status))
    ensures r.status == QuorumReached && now < r.executeAfter.value ==>
              Finalize(r, now).result == Err(TimelockActive(r.executeAfter.value - now))
    ensures r.status != QuorumReached ==> Finalize(r, now).result == Err(InvalidStateTransition(r.status))
  {
  }

  // What a success leaves behind.
  lemma StepYields(r: Request, op: Op)
    requires RequestInvariant(r) && Step(r, op).ok
    ensures var r' := Step(r, op).next;
            match op
            case ApproveOp(g, now) =>
              && r'.intent == r.intent && r'.approvals == r.approvals + [g]
              && (if |r.approvals| + 1 < r.intent.quorum
                  then r'.status == Pending && r'.executeAfter == None
                  else r'.status == QuorumReached && r'.executeAfter == Some(now + r.intent.timelock))
            case CancelOp => r' == Request(r.intent, r.executeAfter, r.approvals, Cancelled)
            case FinalizeOp(_) => r' == Request(r.intent, r.executeAfter, r.approvals, Executed)
  {
  }

  // When each operation succeeds, in terms of the stored status and the clock.
  lemma StepSucceedsExactly(r: Request, op: Op)
    requires RequestInvariant(r)
    ensures Step(r, op).ok <==>
              match op
              case ApproveOp(g, _) => r.status == Pending && g !in r.approvals
              case CancelOp => r.status == Pending || r.status == QuorumReached
              case FinalizeOp(now) => r.status == QuorumReached && r.executeAfter.Some? && now >= r.executeAfter.value
  {
  }

  // Refused before the release time, a finalization succeeds after exactly the
  // time that was reported, and not before.
  lemma WaitingSuffices(r: Request, now: nat, wait: nat)
    requires RequestInvariant(r) && r.status == QuorumReached && now < r.executeAfter.value
    ensures Finalize(r, now).result.Err? && Finalize(r, now).result.error.TimelockActive?
    ensures Finalize(r, now + wait).result.Ok? <==> wait >= Finalize(r, now).result.error.remaining
  {
  }

  // What a wallet does with the replacement it is handed.
  function Replaced(devices: set<Name>, x: Replacement): set<Name> {
    (if x.replaced.Some? then devices - {x.replaced.value} else devices) + {x.added}
  }

  // A finalization, at any moment of any run from initiation, names the devices
  // fixed then. Applied to any device set, the new device is in, the replaced
  // one out, and every other as before.
  lemma {:induction false} FinalizationReplaces(i: Intent, guardians: nat, ops: seq<Op>, now: nat, devices: set<Name>,
                                                d: Name)
    requires Initiate(i, guardians).Ok?
    ensures RequestInvariant(Initiate(i, guardians).value)
    ensures var f := Finalize(Run(Initiate(i, guardians).value, ops), now).result;
            f.Ok? ==>
              && f.value.replaced == i.replacedDevice && f.value.added == i.newDevice
              && (d in Replaced(devices, f.value) <==>
                    if d == i.newDevice then true else if Some(d) == i.replacedDevice then false else d in devices)
  {
    InitiationRefusals(i, guardians);
    InitiationEstablishes(i, guardians);
  }

  // Approvals by guardians gs at times nows, in order.
  function ApproveAll(r: Request, gs: seq<Name>, nows: seq<nat>): Request
    requires |gs| == |nows|
  {
    if gs == [] then r
    else
      var k := |gs| - 1;
      Approve(ApproveAll(r, gs[..k], nows[..k]), gs[k], nows[k]).next
  }

  // Any guardians, pairwise distinct and quorum-many, bring a fresh request to
  // its quorum, released the timelock after the last of them; fewer leave it
  // pending.
  lemma {:induction false} DistinctApprovalsReachQuorum(i: Intent, gs: seq<Name>, nows: seq<nat>)
    requires 0 < i.quorum && |gs| == |nows| <= i.quorum && DistinctNames(gs)
    ensures ApproveAll(Request(i, None, [], Pending), gs, nows) ==
              if |gs| < i.quorum then Request(i, None, gs, Pending)
              else Request(i, Some(nows[|nows| - 1] + i.timelock), gs, QuorumReached)
  {
    if gs != [] {
      var k := |gs| - 1;
      DistinctSnoc(gs);
      DistinctApprovalsReachQuorum(i, gs[..k], nows[..k]);
      NextApproval(i, gs[..k], gs[k], nows[k]);
      assert gs == gs[..k] + [gs[k]];
    }
  }

  lemma NextApproval(i: Intent, gs: seq<Name>, g: Name, now: nat)
    requires |gs| < i.quorum && g !in gs
    ensures Approve(Request(i, None, gs, Pending), g, now).next ==
              if |gs| + 1 < i.quorum then Request(i, None, gs + [g], Pending)
              else Request(i, Some(now + i.timelock), gs + [g], QuorumReached)
  {
  }

  // ----- Canonical bytes

  function ReplacedBytes(i: Intent): Bytes {
    match i.replacedDevice
    case Some(d) => d
    case None => []
  }

  predicate TypedIntent(i: Intent) {
    && i.id < TWO_64 && i.initiatedAt < TWO_64 && i.quorum < TWO_32 && i.timelock < TWO_64
    && |i.wallet| < TWO_32 && |i.initiator| < TWO_32 && |ReplacedBytes(i)| < TWO_32 && |i.newDevice| < TWO_32
  }

  // Everything after the tag, as schema fields.
  function IntentFields(i: Intent): seq<Field>
    requires i.quorum <= 255
  {
    [U8(1), U64(i.id), Blob(i.wallet), Blob(i.initiator), Blob(ReplacedBytes(i)), Blob(i.newDevice),
     U64(i.initiatedAt), U8(i.quorum), U64(i.timelock)]
  }

  // The fields written before the quorum.
  function SubjectFields(i: Intent): seq<Field> {
    [U8(1), U64(i.id), Blob(i.wallet), Blob(i.initiator), Blob(ReplacedBytes(i)), Blob(i.newDevice),
     U64(i.initiatedAt)]
  }

  lemma SubjectComesFirst(i: Intent)
    requires i.quorum <= 255
    ensures IntentFields(i) == SubjectFields(i) + [U8(i.quorum)] + [U64(i.timelock)]
  {
  }

  function IntentBytes(tag: Bytes, i: Intent): Bytes
    requires i.quorum <= 255
  {
    tag + FieldsBytes(IntentFields(i))
  }

  // Equal bytes, equal intent, except that an absent replaced device and an
  // empty one are written alike.
  lemma IntentBytesIdentify(tag: Bytes, i: Intent, j: Intent)
    requires TypedIntent(i) && TypedIntent(j) && i.quorum <= 255 && j.quorum <= 255
    ensures IntentBytes(tag, i) == IntentBytes(tag, j) <==>
              i == j.(replacedDevice := i.replacedDevice) && ReplacedBytes(i) == ReplacedBytes(j)
  {
    var fi, fj := IntentFields(i), IntentFields(j);
    if tag + FieldsBytes(fi) == tag + FieldsBytes(fj) {
      CancelPrefix(tag, FieldsBytes(fi), tag, FieldsBytes(fj));
      FieldsInjective(i, j);
      FieldsEqual(i, j);
    } else {
      assert i.quorum == j.quorum && i == j.(replacedDevice := i.replacedDevice) && ReplacedBytes(i) == ReplacedBytes(j)
             ==> fi == fj;
    }
  }

  lemma FieldsInjective(i: Intent, j: Intent)
    requires TypedIntent(i) && TypedIntent(j) && i.quorum <= 255 && j.quorum <= 255
    requires FieldsBytes(IntentFields(i)) == FieldsBytes(IntentFields(j))
    ensures IntentFields(i) == IntentFields(j)
  {
    var fi, fj := IntentFields(i), IntentFields(j);
    var ks := [KindU8, KindU64, KindBlob, KindBlob, KindBlob, KindBlob, KindU64, KindU8, KindU64];
    assert Matches(fi, ks) && Matches(fj, ks);
    EncodedInjective(ks, fi, fj);
  }

  lemma FieldsEqual(i: Intent, j: Intent)
    requires i.quorum <= 255 && j.quorum <= 255 && IntentFields(i) == IntentFields(j)
    ensures i == j.(replacedDevice := i.replacedDevice) && ReplacedBytes(i) == ReplacedBytes(j)
  {
  }

  // What a reader of the bytes behind the tag finds, field by field.
  lemma {:induction false} IntentReadsBack(tag: Bytes, i: Intent)
    requires TypedIntent(i) && i.quorum <= 255
    ensures var ks := [KindU8, KindU64, KindBlob, KindBlob, KindBlob, KindBlob, KindU64, KindU8, KindU64];
            && tag <= IntentBytes(tag, i)
            && Decode(ks, IntentBytes(tag, i)[|tag|..]) ==
                 Some([U8(1), U64(i.id), Blob(i.wallet), Blob(i.initiator),
                       Blob(match i.replacedDevice case Some(d) => d case None => []), Blob(i.newDevice),
                       U64(i.initiatedAt), U8(i.quorum), U64(i.timelock)])
  {
    var ks := [KindU8, KindU64, KindBlob, KindBlob, KindBlob, KindBlob, KindU64, KindU8, KindU64];
    var fs := IntentFields(i);
    assert IntentBytes(tag, i)[|tag|..] == FieldsBytes(fs);
    assert Matches(fs, ks);
    DecodeExactlyInverts(ks, FieldsBytes(fs), fs);
  }
}
