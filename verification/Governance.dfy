// Guardian-governed rotation requests: quorum, timelock, resharing, and the
// canonical bytes that identify a request.
module Governance {
  import opened Bytes
  import opened Names
  import opened Outcome
  import opened TssErrors

  const MIN_TIMELOCK_SECONDS: nat := 3_600

  datatype RotationStatus =
    NoRequest | Pending | QuorumReached | Executable | Resharing | Completed | Cancelled | Failed

  predicate IsLive(s: RotationStatus) {
    s == Pending || s == QuorumReached || s == Executable || s == Resharing
  }

  // The fields fixed at initiation.
  datatype Terms = Terms(
    id: nat, wallet: Bytes, oldVersion: nat, newSet: seq<Name>, threshold: nat, requestedBy: Name,
    governanceReference: Name, createdAt: nat, quorum: nat, timelock: nat, groupKey: Bytes)

  datatype Request = Request(terms: Terms, executableAt: Option<nat>, approvals: seq<Name>, status: RotationStatus)

  datatype Stepped<S> = Stepped(result: Result<(), TssError>, next: S)

  function Initiate(t: Terms, guardians: nat): Result<Request, TssError> {
    if t.newSet == [] then Err(InvalidParticipantSet)
    else if t.threshold == 0 || t.threshold > |t.newSet| then Err(InvalidThreshold)
    else if !DistinctNames(t.newSet) then Err(InvalidParticipantSet)
    else if t.quorum == 0 then Err(GovernanceError)
    else if t.quorum > guardians then Err(GovernanceError)
    else if t.timelock < MIN_TIMELOCK_SECONDS then Err(GovernanceError)
    else if t.requestedBy == [] then Err(GovernanceError)
    else Ok(Request(t, None, [], Pending))
  }

  // A reached quorum reads as executable once the clock is at the release
  // time, boundary included.
  function EffectiveStatus(r: Request, now: nat): RotationStatus {
    if r.status == QuorumReached && r.executableAt.Some? && now >= r.executableAt.value then Executable
    else r.status
  }

  predicate IsExecutable(r: Request, now: nat) {
    EffectiveStatus(r, now) == Executable
  }

  function Approve(r: Request, guardian: Name, now: nat): Stepped<Request> {
    if r.status != Pending || guardian in r.approvals then Stepped(Err(GovernanceError), r)
    else
      var r' := r.(approvals := r.approvals + [guardian]);
      Stepped(Ok(()),
              if |r'.approvals| >= r.terms.quorum
              then r'.(status := QuorumReached, executableAt := Some(now + r.terms.timelock))
              else r')
  }

  function Cancel(r: Request): Stepped<Request> {
    if !IsLive(r.status) then Stepped(Err(GovernanceError), r)
    else Stepped(Ok(()), r.(status := Cancelled))
  }

  // Takes no clock reading: quorum alone is enough here.
  function MarkResharing(r: Request): Stepped<Request> {
    if r.status != Executable && r.status != QuorumReached then Stepped(Err(GovernanceError), r)
    else Stepped(Ok(()), r.(status := Resharing))
  }

  function MarkResharingAt(r: Request, now: nat): Stepped<Request> {
    if EffectiveStatus(r, now) != Executable then Stepped(Err(GovernanceError), r)
    else Stepped(Ok(()), r.(status := Resharing))
  }

  function MarkCompleted(r: Request): Stepped<Request> {
    if r.status != Resharing then Stepped(Err(GovernanceError), r)
    else Stepped(Ok(()), r.(status := Completed))
  }

  function MarkFailed(r: Request): Stepped<Request> {
    if r.status != Resharing then Stepped(Err(GovernanceError), r)
    else Stepped(Ok(()), r.(status := Failed))
  }

  class TssRotationRequest {
    const terms: Terms
    var executableAt: Option<nat>
    var approvals: seq<Name>
    var status: RotationStatus

    ghost function View(): Request
      reads this
    {
      Request(terms, executableAt, approvals, status)
    }

    constructor (terms: Terms)
      ensures View() == Request(terms, None, [], Pending)
    {
      this.terms := terms;
      executableAt := None;
      approvals := [];
      status := Pending;
    }

    static method InitiateRequest(t: Terms, guardians: nat) returns (r: Result<TssRotationRequest, TssError>)
      ensures match Initiate(t, guardians)
              case Ok(q) => r.Ok? && fresh(r.value) && r.value.View() == q
              case Err(e) => r == Err(e)
    {
      if t.newSet == [] { return Err(InvalidParticipantSet); }
      if t.threshold == 0 || t.threshold > |t.newSet| { return Err(InvalidThreshold); }
      var uniq := set x | x in t.newSet;
      SetSizeDetectsRepetition(t.newSet);
      if |uniq| != |t.newSet| { return Err(InvalidParticipantSet); }
      if t.quorum == 0 { return Err(GovernanceError); }
      if t.quorum > guardians { return Err(GovernanceError); }
      if t.timelock < MIN_TIMELOCK_SECONDS { return Err(GovernanceError); }
      if t.requestedBy == [] { return Err(GovernanceError); }
      var request := new TssRotationRequest(t);
      r := Ok(request);
    }

    function EffectiveStatusAt(now: nat): RotationStatus
      reads this
      ensures EffectiveStatusAt(now) == EffectiveStatus(View(), now)
    {
      if status == QuorumReached && executableAt.Some? && now >= executableAt.value then Executable else status
    }

    method ApproveBy(guardian: Name, now: nat) returns (r: Result<(), TssError>)
      modifies this
      ensures Stepped(r, View()) == Approve(old(View()), guardian, now)
    {
      if status != Pending { return Err(GovernanceError); }
      if guardian in approvals { return Err(GovernanceError); }
      approvals := approvals + [guardian];
      if |approvals| >= terms.quorum {
        status := QuorumReached;
        executableAt := Some(now + terms.timelock);
      }
      r := Ok(());
    }

    method CancelRequest() returns (r: Result<(), TssError>)
      modifies this
      ensures Stepped(r, View()) == Cancel(old(View()))
    {
      if !IsLive(status) { return Err(GovernanceError); }
      status := Cancelled;
      r := Ok(());
    }

    method MarkAsResharing() returns (r: Result<(), TssError>)
      modifies this
      ensures Stepped(r, View()) == MarkResharing(old(View()))
    {
      if status != Executable && status != QuorumReached { return Err(GovernanceError); }
      status := Resharing;
      r := Ok(());
    }

    method MarkAsResharingAt(now: nat) returns (r: Result<(), TssError>)
      modifies this
      ensures Stepped(r, View()) == MarkResharingAt(old(View()), now)
    {
      if EffectiveStatusAt(now) != Executable { return Err(GovernanceError); }
      status := Resharing;
      r := Ok(());
    }

    method MarkAsCompleted() returns (r: Result<(), TssError>)
      modifies this
      ensures Stepped(r, View()) == MarkCompleted(old(View()))
    {
      if status != Resharing { return Err(GovernanceError); }
      status := Completed;
      r := Ok(());
    }

    method MarkAsFailed() returns (r: Result<(), TssError>)
      modifies this
      ensures Stepped(r, View()) == MarkFailed(old(View()))
    {
      if status != Resharing { return Err(GovernanceError); }
      status := Failed;
      r := Ok(());
    }

    method CanonicalBytes() returns (out: Bytes)
      requires TypedTerms(terms)
      ensures out == RotationBytes(terms)
    {
      out := Ascii("KEYMESH_TSS_ROTATION_V1");
      out := out + BE(terms.id, 8);
      out := out + terms.wallet;
      out := out + BE(terms.oldVersion, 8);
      out := out + BE(|terms.newSet|, 8);
      ghost var head := out;
      var names := terms.newSet;
      assert names[..0] == [];
      for i := 0 to |names|
        invariant out == head + NamesBytes(names[..i])
      {
        NamesAppend(names, i);
        AppendTwo(head, NamesBytes(names[..i]), BE(|names[i]|, 8), names[i]);
        out := out + BE(|names[i]|, 8);
        out := out + names[i];
      }
      assert names[..|names|] == names;
      out := out + BE(terms.threshold, 8);
      out := out + BE(terms.quorum, 8);
      out := out + BE(terms.timelock, 8);
      out := out + BE(terms.createdAt, 8);
      out := out + terms.groupKey;
    }
  }

  // ----- What every step keeps

  predicate RequestInvariant(r: Request) {
    var t := r.terms;
    && t.newSet != [] && 1 <= t.threshold <= |t.newSet| && DistinctNames(t.newSet)
    && 0 < t.quorum && MIN_TIMELOCK_SECONDS <= t.timelock
    && DistinctNames(r.approvals) && |r.approvals| <= t.quorum
    && (r.executableAt.Some? <==> |r.approvals| == t.quorum)
    && r.status != Executable && r.status != NoRequest
    && (r.status == Pending ==> |r.approvals| < t.quorum)
    && (r.status == QuorumReached || r.status == Resharing || r.status == Completed || r.status == Failed ==>
          |r.approvals| == t.quorum)
  }

  datatype RequestOp =
    | ApproveOp(guardian: Name, now: nat)
    | CancelOp
    | ResharingOp
    | ResharingAtOp(now: nat)
    | CompletedOp
    | FailedOp

  function RequestStep(r: Request, op: RequestOp): Stepped<Request> {
    match op
    case ApproveOp(g, now) => Approve(r, g, now)
    case CancelOp => Cancel(r)
    case ResharingOp => MarkResharing(r)
    case ResharingAtOp(now) => MarkResharingAt(r, now)
    case CompletedOp => MarkCompleted(r)
    case FailedOp => MarkFailed(r)
  }

  // Which guard refuses to open a request: the first that does not hold.
  lemma InitiationRefusals(t: Terms, guardians: nat)
    ensures Initiate(t, guardians).Ok? ==> Initiate(t, guardians).value == Request(t, None, [], Pending)
    ensures Initiate(t, guardians) == Err(InvalidThreshold) <==>
              t.newSet != [] && !(1 <= t.threshold <= |t.newSet|)
    ensures Initiate(t, guardians) == Err(InvalidParticipantSet) <==>
              t.newSet == [] || (1 <= t.threshold <= |t.newSet| && !DistinctNames(t.newSet))
    ensures Initiate(t, guardians) == Err(GovernanceError) <==>
              && 1 <= t.threshold <= |t.newSet| && DistinctNames(t.newSet)
              && (!(1 <= t.quorum <= guardians) || t.timelock < MIN_TIMELOCK_SECONDS || t.requestedBy == [])
  {
  }

  lemma InitiationEstablishes(t: Terms, guardians: nat)
    ensures Initiate(t, guardians).Ok? ==> RequestInvariant(Initiate(t, guardians).value)
    ensures Initiate(t, guardians).Ok? <==>
              && t.newSet != [] && 1 <= t.threshold <= |t.newSet| && DistinctNames(t.newSet)
              && 1 <= t.quorum <= guardians && t.timelock >= MIN_TIMELOCK_SECONDS && t.requestedBy != []
  {
  }

  // No operation, successful or not, breaks the invariant or changes the
  // terms; errors change nothing; the release time is set once; terminal
  // requests are frozen.
  lemma RequestStepKeeps(r: Request, op: RequestOp)
    requires RequestInvariant(r)
    ensures var s := RequestStep(r, op);
            && RequestInvariant(s.next) && s.next.terms == r.terms
            && (s.result.Err? ==> s.next == r)
            && (r.executableAt.Some? ==> s.next.executableAt == r.executableAt && s.next.approvals == r.approvals)
            && (s.next.executableAt.Some? && r.executableAt.None? ==>
                  op.ApproveOp? && s.next.executableAt == Some(op.now + r.terms.timelock))
            && (r.status == Completed || r.status == Cancelled || r.status == Failed ==> s.next == r)
  {
  }

  // When each operation succeeds: approvals by new guardians while pending,
  // cancellation while live, marking from the quorum on or from the release time
  // on, and the closing marks while resharing.
  lemma RequestStepSucceedsExactly(r: Request, op: RequestOp)
    requires RequestInvariant(r)
    ensures RequestStep(r, op).result.Ok? <==>
              match op
              case ApproveOp(g, _) => r.status == Pending && g !in r.approvals
              case CancelOp => r.status == Pending || r.status == QuorumReached || r.status == Resharing
              case ResharingOp => r.status == QuorumReached
              case ResharingAtOp(now) =>
                r.status == QuorumReached && r.executableAt.Some? && now >= r.executableAt.value
              case CompletedOp => r.status == Resharing
              case FailedOp => r.status == Resharing
    ensures RequestStep(r, op).result.Err? ==> RequestStep(r, op).result == Err(GovernanceError)
  {
  }

  // And what a success leaves: the guardian appended, with the quorum and its
  // release time once there are enough, or the status the operation stands for.
  lemma RequestStepYields(r: Request, op: RequestOp)
    requires RequestInvariant(r) && RequestStep(r, op).result.Ok?
    ensures var r' := RequestStep(r, op).next;
            match op
            case ApproveOp(g, now) =>
              && r'.terms == r.terms && r'.approvals == r.approvals + [g]
              && (if |r.approvals| + 1 < r.terms.quorum
                  then r'.status == Pending && r'.executableAt == None
                  else r'.status == QuorumReached && r'.executableAt == Some(now + r.terms.timelock))
            case CancelOp => r' == Request(r.terms, r.executableAt, r.approvals, Cancelled)
            case ResharingOp => r' == Request(r.terms, r.executableAt, r.approvals, Resharing)
            case ResharingAtOp(_) => r' == Request(r.terms, r.executableAt, r.approvals, Resharing)
            case CompletedOp => r' == Request(r.terms, r.executableAt, r.approvals, Completed)
            case FailedOp => r' == Request(r.terms, r.executableAt, r.approvals, Failed)
  {
  }

  // Approvals by guardians gs at times nows, in order.
  function ApproveAll(r: Request, gs: seq<Name>, nows: seq<nat>): Request
    requires |gs| == |nows|
  {
    if gs == [] then r
    else
      var k := |gs| - 1;
      Approve(ApproveAll(r, gs[..k], nows[..k]), gs[k], nows[k]).next
  }

  // Any guardians, pairwise distinct and quorum-many, bring a fresh request to
  // its quorum, released the timelock after the last of them; fewer leave it
  // pending.
  lemma {:induction false} DistinctApprovalsReachQuorum(t: Terms, gs: seq<Name>, nows: seq<nat>)
    requires 0 < t.quorum && |gs| == |nows| <= t.quorum && DistinctNames(gs)
    ensures ApproveAll(Request(t, None, [], Pending), gs, nows) ==
              if |gs| < t.quorum then Request(t, None, gs, Pending)
              else Request(t, Some(nows[|nows| - 1] + t.timelock), gs, QuorumReached)
  {
    if gs != [] {
      var k := |gs| - 1;
      DistinctApprovalsReachQuorum(t, gs[..k], nows[..k]);
      NewGuardian(gs);
      NextApproval(t, gs[..k], gs[k], nows[k]);
      assert gs == gs[..k] + [gs[k]];
    }
  }

  lemma NewGuardian(gs: seq<Name>)
    requires gs != [] && DistinctNames(gs)
    ensures DistinctNames(gs[..|gs| - 1]) && gs[|gs| - 1] !in gs[..|gs| - 1]
  {
    DistinctSnoc(gs);
  }

  lemma NextApproval(t: Terms, gs: seq<Name>, g: Name, now: nat)
    requires |gs| < t.quorum && g !in gs
    ensures Approve(Request(t, None, gs, Pending), g, now).next ==
              if |gs| + 1 < t.quorum then Request(t, None, gs + [g], Pending)
              else Request(t, Some(now + t.timelock), gs + [g], QuorumReached)
  {
  }

  // A request reads as executable exactly at a reached quorum from the release
  // time on, and so does the time-checked marking open; the clock-free one
  // opens at quorum.
  lemma ResharingGates(r: Request, now: nat)
    requires RequestInvariant(r)
    ensures IsExecutable(r, now) <==>
              r.status == QuorumReached && r.executableAt.Some? && now >= r.executableAt.value
    ensures !IsExecutable(r, now) ==> EffectiveStatus(r, now) == r.status
    ensures MarkResharingAt(r, now).result.Ok? <==> IsExecutable(r, now)
    ensures MarkResharing(r).result.Ok? <==> r.status == QuorumReached
  {
  }

  // ----- Canonical bytes

  function NamesBytes(names: seq<Name>): Bytes {
    if names == [] then [] else BE(|names[0]|, 8) + names[0] + NamesBytes(names[1..])
  }

  lemma {:induction false} NamesAppend(names: seq<Name>, i: nat)
    requires i < |names|
    ensures NamesBytes(names[..i + 1]) == NamesBytes(names[..i]) + BE(|names[i]|, 8) + names[i]
  {
    if i == 0 {
      assert names[..1] == [names[0]] && names[..0] == [] && names[..1][1..] == names[..0];
    } else {
      NamesAppend(names[1..], i - 1);
      assert names[..i + 1][1..] == names[1..][..i] && names[..i][1..] == names[1..][..i - 1];
      var h := BE(|names[0]|, 8) + names[0];
      assert h + (NamesBytes(names[1..][..i - 1]) + BE(|names[i]|, 8) + names[i])
          == (h + NamesBytes(names[1..][..i - 1])) + BE(|names[i]|, 8) + names[i];
    }
  }

  lemma AppendTwo(a: Bytes, b: Bytes, c: Bytes, d: Bytes)
    ensures a + (b + c + d) == a + b + c + d
  {
  }

  function RotationBytes(t: Terms): Bytes {
    Ascii("KEYMESH_TSS_ROTATION_V1") + BE(t.id, 8) + t.wallet + BE(t.oldVersion, 8) + BE(|t.newSet|, 8)
    + NamesBytes(t.newSet)
    + BE(t.threshold, 8) + BE(t.quorum, 8) + BE(t.timelock, 8) + BE(t.createdAt, 8) + t.groupKey
  }

  // The widths of the Rust field types.
  predicate TypedTerms(t: Terms) {
    && t.id < TWO_64 && |t.wallet| == 20 && t.oldVersion < TWO_64 && |t.newSet| < TWO_64
    && (forall i :: 0 <= i < |t.newSet| ==> |t.newSet[i]| < TWO_64)
    && t.threshold < TWO_64 && t.quorum < TWO_32 && t.timelock < TWO_64 && t.createdAt < TWO_64
    && |t.groupKey| == 33
  }

  lemma NumberInjective(v: nat, w: nat)
    requires v < TWO_64 && w < TWO_64 && BE(v, 8) == BE(w, 8)
    ensures v == w
  {
    PowersOf256();
    BEInjective(v, w, 8);
  }

  lemma FirstName(a: seq<Name>, x: Bytes)
    requires a != []
    ensures NamesBytes(a) + x == BE(|a[0]|, 8) + (a[0] + (NamesBytes(a[1..]) + x))
  {
    Reassociate(BE(|a[0]|, 8), a[0], NamesBytes(a[1..]), x);
  }

  lemma Reassociate(a: Bytes, b: Bytes, c: Bytes, d: Bytes)
    ensures a + b + c + d == a + (b + (c + d))
  {
  }

  lemma FirstNameInjective(a: Name, x: Bytes, b: Name, y: Bytes)
    requires |a| < TWO_64 && |b| < TWO_64 && BE(|a|, 8) + (a + x) == BE(|b|, 8) + (b + y)
    ensures a == b && x == y
  {
    CancelPrefix(BE(|a|, 8), a + x, BE(|b|, 8), b + y);
    NumberInjective(|a|, |b|);
    CancelPrefix(a, x, b, y);
  }

  lemma {:induction false} NamesInjective(a: seq<Name>, x: Bytes, b: seq<Name>, y: Bytes)
    requires |a| == |b| && NamesBytes(a) + x == NamesBytes(b) + y
    requires forall i :: 0 <= i < |a| ==> |a[i]| < TWO_64 && |b[i]| < TWO_64
    ensures a == b && x == y
  {
    if a == [] {
      assert [] + x == x && [] + y == y;
    } else {
      FirstName(a, x);
      FirstName(b, y);
      FirstNameInjective(a[0], NamesBytes(a[1..]) + x, b[0], NamesBytes(b[1..]) + y);
      NamesInjective(a[1..], x, b[1..], y);
      assert a == [a[0]] + a[1..] && b == [b[0]] + b[1..];
    }
  }

  // Equal bytes mean equal id, wallet, old version, participant list,
  // threshold, quorum, timelock, creation time and group key; who asked and
  // the free-text reference are not covered.
  lemma RotationBytesIdentify(s: Terms, t: Terms)
    requires TypedTerms(s) && TypedTerms(t)
    ensures RotationBytes(s) == RotationBytes(t) <==>
              s == t.(requestedBy := s.requestedBy, governanceReference := s.governanceReference)
  {
    if RotationBytes(s) == RotationBytes(t) {
      var d := Ascii("KEYMESH_TSS_ROTATION_V1");
      SplitBytes(d, s);
      SplitBytes(d, t);
      CancelPrefix(Head(d, s), NamesBytes(s.newSet) + Tail(s), Head(d, t), NamesBytes(t.newSet) + Tail(t));
      HeadInjective(d, s, t);
      NamesInjective(s.newSet, Tail(s), t.newSet, Tail(t));
      TailInjective(s, t);
    }
  }

  // The fixed-width fields around the participant list.
  function Head(d: Bytes, t: Terms): Bytes {
    d + BE(t.id, 8) + t.wallet + BE(t.oldVersion, 8) + BE(|t.newSet|, 8)
  }

  function Tail(t: Terms): Bytes {
    BE(t.threshold, 8) + BE(t.quorum, 8) + BE(t.timelock, 8) + BE(t.createdAt, 8) + t.groupKey
  }

  lemma TailInjective(s: Terms, t: Terms)
    requires TypedTerms(s) && TypedTerms(t) && Tail(s) == Tail(t)
    ensures s.threshold == t.threshold && s.quorum == t.quorum && s.timelock == t.timelock
    ensures s.createdAt == t.createdAt && s.groupKey == t.groupKey
  {
    var s3, t3 := BE(s.threshold, 8) + BE(s.quorum, 8) + BE(s.timelock, 8),
                  BE(t.threshold, 8) + BE(t.quorum, 8) + BE(t.timelock, 8);
    CancelPrefix(s3 + BE(s.createdAt, 8), s.groupKey, t3 + BE(t.createdAt, 8), t.groupKey);
    CancelPrefix(s3, BE(s.createdAt, 8), t3, BE(t.createdAt, 8));
    CancelPrefix(BE(s.threshold, 8) + BE(s.quorum, 8), BE(s.timelock, 8),
                 BE(t.threshold, 8) + BE(t.quorum, 8), BE(t.timelock, 8));
    CancelPrefix(BE(s.threshold, 8), BE(s.quorum, 8), BE(t.threshold, 8), BE(t.quorum, 8));
    NumberInjective(s.threshold, t.threshold);
    NumberInjective(s.quorum, t.quorum);
    NumberInjective(s.timelock, t.timelock);
    NumberInjective(s.createdAt, t.createdAt);
  }

  lemma SplitBytes(d: Bytes, t: Terms)
    ensures d + BE(t.id, 8) + t.wallet + BE(t.oldVersion, 8) + BE(|t.newSet|, 8) + NamesBytes(t.newSet)
            + BE(t.threshold, 8) + BE(t.quorum, 8) + BE(t.timelock, 8) + BE(t.createdAt, 8) + t.groupKey
         == Head(d, t) + (NamesBytes(t.newSet) + Tail(t))
  {
    NestTail(Head(d, t), NamesBytes(t.newSet), BE(t.threshold, 8), BE(t.quorum, 8), BE(t.timelock, 8),
             BE(t.createdAt, 8), t.groupKey);
  }

  lemma NestTail(h: Bytes, n: Bytes, a: Bytes, b: Bytes, c: Bytes, d: Bytes, g: Bytes)
    ensures h + n + a + b + c + d + g == h + (n + (a + b + c + d + g))
  {
  }

  lemma HeadInjective(d: Bytes, s: Terms, t: Terms)
    requires TypedTerms(s) && TypedTerms(t) && Head(d, s) == Head(d, t)
    ensures s.id == t.id && s.wallet == t.wallet && s.oldVersion == t.oldVersion && |s.newSet| == |t.newSet|
  {
    var s3, t3 := d + BE(s.id, 8) + s.wallet, d + BE(t.id, 8) + t.wallet;
    CancelPrefix(s3 + BE(s.oldVersion, 8), BE(|s.newSet|, 8), t3 + BE(t.oldVersion, 8), BE(|t.newSet|, 8));
    CancelPrefix(s3, BE(s.oldVersion, 8), t3, BE(t.oldVersion, 8));
    CancelPrefix(d + BE(s.id, 8), s.wallet, d + BE(t.id, 8), t.wallet);
    CancelPrefix(d, BE(s.id, 8), d, BE(t.id, 8));
    NumberInjective(s.id, t.id);
    NumberInjective(s.oldVersion, t.oldVersion);
    NumberInjective(|s.newSet|, |t.newSet|);
  }

  // ----- Layout

  // Where each field lies: fixed offsets up to the participant count, the
  // participants, and fixed offsets from the end.
  lemma {:induction false} RotationLayout(t: Terms)
    requires TypedTerms(t)
    ensures var b := RotationBytes(t);
            && |b| == 132 + |NamesBytes(t.newSet)|
            && b[..23] == Ascii("KEYMESH_TSS_ROTATION_V1") && b[23..31] == BE(t.id, 8) && b[31..51] == t.wallet
            && b[51..59] == BE(t.oldVersion, 8) && b[59..67] == BE(|t.newSet|, 8)
            && var n := 67 + |NamesBytes(t.newSet)|;
               && b[67..n] == NamesBytes(t.newSet)
               && b[n..n + 8] == BE(t.threshold, 8) && b[n + 8..n + 16] == BE(t.quorum, 8)
               && b[n + 16..n + 24] == BE(t.timelock, 8) && b[n + 24..n + 32] == BE(t.createdAt, 8)
               && b[n + 32..] == t.groupKey
  {
    SplitBytes(Ascii("KEYMESH_TSS_ROTATION_V1"), t);
    PartsAt(RotationBytes(t), Ascii("KEYMESH_TSS_ROTATION_V1"), BE(t.id, 8), t.wallet, BE(t.oldVersion, 8),
            BE(|t.newSet|, 8), NamesBytes(t.newSet), BE(t.threshold, 8), BE(t.quorum, 8), BE(t.timelock, 8),
            BE(t.createdAt, 8), t.groupKey);
  }

  lemma PartsAt(b: Bytes, d: Bytes, i: Bytes, w: Bytes, v: Bytes, c: Bytes, names: Bytes, t: Bytes, q: Bytes, l: Bytes,
                r: Bytes, g: Bytes)
    requires |d| == 23 && |i| == 8 && |w| == 20 && |v| == 8 && |c| == 8 && |t| == |q| == |l| == |r| == 8
    requires b == d + i + w + v + c + (names + (t + q + l + r + g))
    ensures |b| == 99 + |names| + |g|
    ensures b[..23] == d && b[23..31] == i && b[31..51] == w && b[51..59] == v && b[59..67] == c
    ensures var n := 67 + |names|;
            && b[67..n] == names && b[n..n + 8] == t && b[n + 8..n + 16] == q && b[n + 16..n + 24] == l
            && b[n + 24..n + 32] == r && b[n + 32..] == g
  {
  }

  // Participants are written one after the other, each behind its length.
  lemma NamesLayout(names: seq<Name>, i: nat)
    requires i < |names|
    ensures var at := |NamesBytes(names[..i])|;
            && at + 8 + |names[i]| <= |NamesBytes(names)|
            && NamesBytes(names)[at..at + 8] == BE(|names[i]|, 8)
            && NamesBytes(names)[at + 8..at + 8 + |names[i]|] == names[i]
  {
    NamesPrefix(names, i + 1);
    NamesAppend(names, i);
  }

  lemma {:induction false} NamesPrefix(names: seq<Name>, k: nat)
    requires k <= |names|
    ensures NamesBytes(names[..k]) <= NamesBytes(names)
    decreases |names| - k
  {
    if k < |names| {
      NamesPrefix(names, k + 1);
      NamesAppend(names, k);
    } else {
      assert names[..k] == names;
    }
  }
}
