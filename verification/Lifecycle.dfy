// The governed key lifecycle: creation, refresh, governed rotation and
// retirement of one threshold key.
module Lifecycle {
  import opened Bytes
  import opened Governance
  import opened Names
  import opened Outcome
  import opened Resharing
  import opened TssErrors

  // Encodings and hashes of the library, as parameters.
  datatype Crypto = Crypto(
    uncompressed: Key -> Bytes, compressed: Key -> Bytes, address: Key -> Bytes, keccak: Bytes -> Bytes)

  datatype KeyState = Created | Active | Refreshing | Rotating | Retired

  datatype KeyView = KeyView(
    state: KeyState, material: Option<Material>, version: nat, keyId: Bytes, groupKeyBytes: Option<Bytes>, locked: bool)

  const NO_KEY_ID: Bytes := Zeros(32)

  const INITIAL_KEY: KeyView := KeyView(Created, None, 0, NO_KEY_ID, None, false)

  // Key id preimage: group key, protocol version, threshold, set version.
  function KeyIdPreimage(point: Bytes, threshold: nat, version: nat): Bytes {
    point + Ascii("synedrion/0.3-cggmp24") + BE(threshold, 8) + BE(version, 8)
  }

  function DeriveKeyId(c: Crypto, key: Key, threshold: nat, version: nat): Bytes {
    c.keccak(KeyIdPreimage(c.uncompressed(key), threshold, version))
  }

  // Points of equal width, and u64 numbers: no two share a preimage.
  lemma KeyIdPreimageInjective(p: Bytes, t: nat, v: nat, p': Bytes, t': nat, v': nat)
    requires |p| == |p'| && t < TWO_64 && v < TWO_64 && t' < TWO_64 && v' < TWO_64
    requires KeyIdPreimage(p, t, v) == KeyIdPreimage(p', t', v')
    ensures p == p' && t == t' && v == v'
  {
    var d := Ascii("synedrion/0.3-cggmp24");
    CancelPrefix(p + d + BE(t, 8), BE(v, 8), p' + d + BE(t', 8), BE(v', 8));
    CancelPrefix(p + d, BE(t, 8), p' + d, BE(t', 8));
    CancelPrefix(p, d, p', d);
    NumberInjective(t, t');
    NumberInjective(v, v');
  }

  // What the 2-of-3 setup protocol returns: a group key, and a share and
  // auxiliary data for every party.
  datatype DkgRun = DkgRun(key: Key, share: Party -> ThresholdShare, aux: Party -> nat)

  function SetupMaterial(c: Crypto, run: DkgRun): Material {
    Material(
      [Participant(0, 0, run.share(0), run.aux(0)),
       Participant(1, 1, run.share(1), run.aux(1)),
       Participant(2, 2, run.share(2), run.aux(2))],
      GroupPublicKey(run.key, c.address(run.key)), 2, 3)
  }

  // ----- Transitions

  function Dkg(c: Crypto, l: KeyView, run: Option<DkgRun>): Stepped<KeyView> {
    if l.state != Created then Stepped(Err(LifecycleError), l)
    else if l.locked then Stepped(Err(LifecycleLocked), l)
    else if run.None? then Stepped(Err(DkgFailed), l)
    else
      var m := SetupMaterial(c, run.value);
      Stepped(Ok(()), KeyView(Active, Some(m), 1, DeriveKeyId(c, m.groupKey.verifyingKey, m.threshold, 1),
                              Some(c.compressed(m.groupKey.verifyingKey)), l.locked))
  }

  // Material, once there, names at least one participant.
  predicate HasParticipants(l: KeyView) {
    l.material.Some? ==> l.material.value.participants != []
  }

  function Refresh(c: Crypto, l: KeyView, o: Oracle): Stepped<KeyView>
    requires HasParticipants(l)
  {
    if l.state != Active then Stepped(Err(LifecycleError), l)
    else if l.locked then Stepped(Err(LifecycleLocked), l)
    else if l.material.None? then Stepped(Err(LifecycleError), l)
    else
      var m0 := l.material.value;
      match DoRefresh(m0, o, c.address)
      case Err(e) => Stepped(Err(e), l)
      case Ok(m) =>
        if m.groupKey.verifyingKey != m0.groupKey.verifyingKey then Stepped(Err(RefreshFailed), l)
        else if m.groupKey.address != m0.groupKey.address then Stepped(Err(RefreshFailed), l)
        else Stepped(Ok(()), l.(material := Some(m)))
  }

  function BeginRotation(l: KeyView, r: Request, now: nat): Stepped<KeyView> {
    var t := r.terms;
    if l.state != Active then Stepped(Err(LifecycleError), l)
    else if l.locked then Stepped(Err(LifecycleLocked), l)
    else if t.oldVersion != l.version then Stepped(Err(StaleVersion(l.version, t.oldVersion)), l)
    else if l.groupKeyBytes.Some? && l.groupKeyBytes.value != t.groupKey then Stepped(Err(GovernanceError), l)
    else if !IsExecutable(r, now) then Stepped(Err(GovernanceError), l)
    else if l.material.Some? && t.threshold != l.material.value.threshold
            && (t.threshold == 0 || t.threshold > |t.newSet|) then Stepped(Err(InvalidThreshold), l)
    else if l.material.Some? && |t.newSet| < t.threshold then Stepped(Err(InvalidThreshold), l)
    else Stepped(Ok(()), l.(state := Rotating, locked := true))
  }

  // The first threshold check returns without leaving the rotating state.
  function ApplyRotation(c: Crypto, l: KeyView, t: Terms, newThreshold: nat, o: Oracle): Stepped<KeyView>
    requires HasParticipants(l)
  {
    var released := l.(state := Active, locked := false);
    if l.state != Rotating then Stepped(Err(LifecycleError), l)
    else if l.material.None? then Stepped(Err(LifecycleError), l)
    else if newThreshold != t.threshold then Stepped(Err(InvalidThreshold), l)
    else if newThreshold == 0 || newThreshold > |t.newSet| then Stepped(Err(InvalidThreshold), released)
    else
      var m0 := l.material.value;
      CommitRotation(c, l, m0, newThreshold, DoRotation(m0, t.newSet, newThreshold, o, c.address))
  }

  // The checks on what resharing returned, and the switch to it.
  function CommitRotation(c: Crypto, l: KeyView, m0: Material, newThreshold: nat, outcome: Result<Material, TssError>)
    : Stepped<KeyView>
  {
    var released := l.(state := Active, locked := false);
    match outcome
    case Err(e) => Stepped(Err(e), released)
    case Ok(m) =>
      if m.groupKey.verifyingKey != m0.groupKey.verifyingKey then Stepped(Err(RotationFailed), released)
      else if m.groupKey.address != m0.groupKey.address then Stepped(Err(RotationFailed), released)
      else if m.threshold != newThreshold then Stepped(Err(RotationFailed), released)
      else
        Stepped(Ok(()), released.(material := Some(m), version := l.version + 1,
                                  keyId := DeriveKeyId(c, m.groupKey.verifyingKey, m.threshold, l.version + 1)))
  }

  datatype Rotated = Rotated(result: Result<(), TssError>, key: KeyView, request: Request)

  function RotateWithRequest(c: Crypto, l: KeyView, r: Request, now: nat, o: Oracle): Rotated
    requires HasParticipants(l)
  {
    var begun := BeginRotation(l, r, now);
    if begun.result.Err? then Rotated(begun.result, l, r)
    else
      var marked := MarkResharingAt(r, now);
      if marked.result.Err? then Rotated(Err(GovernanceError), begun.next, r)
      else
        var applied := ApplyRotation(c, begun.next, r.terms, r.terms.threshold, o);
        if applied.result.Err? then Rotated(applied.result, applied.next, MarkFailed(marked.next).next)
        else
          var done := MarkCompleted(marked.next);
          if done.result.Err? then Rotated(Err(GovernanceError), applied.next, marked.next)
          else Rotated(Ok(()), applied.next, done.next)
  }

  function Retire(l: KeyView): Stepped<KeyView> {
    if l.state == Retired then Stepped(Err(LifecycleError), l)
    else if l.locked then Stepped(Err(LifecycleLocked), l)
    else if l.state != Active then Stepped(Err(LifecycleError), l)
    else Stepped(Ok(()), l.(state := Retired))
  }

  function CheckSigningAllowed(l: KeyView, version: nat): Result<(), TssError> {
    if l.state == Retired then Err(RetiredError)
    else if l.state != Active then Err(LifecycleLocked)
    else if l.version != version then Err(StaleVersion(l.version, version))
    else if l.material.None? then Err(LifecycleError)
    else Ok(())
  }

  // ----- The object

  class KeyLifecycle {
    const crypto: Crypto
    var state: KeyState
    var material: Option<Material>
    var version: nat
    var keyId: Bytes
    var groupKeyBytes: Option<Bytes>
    var locked: bool

    ghost function View(): KeyView
      reads this
    {
      KeyView(state, material, version, keyId, groupKeyBytes, locked)
    }

    constructor (crypto: Crypto)
      ensures this.crypto == crypto && View() == INITIAL_KEY
    {
      this.crypto := crypto;
      state := Created;
      material := None;
      version := 0;
      keyId := NO_KEY_ID;
      groupKeyBytes := None;
      locked := false;
    }

    method RunDkg(run: Option<DkgRun>) returns (r: Result<(), TssError>)
      modifies this
      ensures Stepped(r, View()) == Dkg(crypto, old(View()), run)
    {
      if state != Created { return Err(LifecycleError); }
      if locked { return Err(LifecycleLocked); }
      if run.None? { return Err(DkgFailed); }
      var m := SetupMaterial(crypto, run.value);
      keyId := DeriveKeyId(crypto, m.groupKey.verifyingKey, m.threshold, 1);
      groupKeyBytes := Some(crypto.compressed(m.groupKey.verifyingKey));
      material := Some(m);
      state := Active;
      version := 1;
      r := Ok(());
    }

    method RefreshShares(o: Oracle) returns (r: Result<(), TssError>)
      requires HasParticipants(View())
      modifies this
      ensures Stepped(r, View()) == Refresh(crypto, old(View()), o)
    {
      if state != Active { return Err(LifecycleError); }
      if locked { return Err(LifecycleLocked); }
      if material.None? { return Err(LifecycleError); }
      var oldMaterial := material.value;
      state := Refreshing;
      locked := true;
      var result := DoRefreshViaResharing(oldMaterial, o, crypto.address);
      if result.Err? {
        state, locked := Active, false;
        return Err(result.error);
      }
      if result.value.groupKey.verifyingKey != oldMaterial.groupKey.verifyingKey {
        state, locked := Active, false;
        return Err(RefreshFailed);
      }
      if result.value.groupKey.address != oldMaterial.groupKey.address {
        state, locked := Active, false;
        return Err(RefreshFailed);
      }
      material := Some(result.value);
      state, locked := Active, false;
      r := Ok(());
    }

    method Begin(request: TssRotationRequest, now: nat) returns (r: Result<(), TssError>)
      modifies this
      ensures Stepped(r, View()) == BeginRotation(old(View()), request.View(), now)
    {
      var t := request.terms;
      if state != Active { return Err(LifecycleError); }
      if locked { return Err(LifecycleLocked); }
      if t.oldVersion != version { return Err(StaleVersion(version, t.oldVersion)); }
      if groupKeyBytes.Some? {
        if groupKeyBytes.value != t.groupKey { return Err(GovernanceError); }
      }
      if request.EffectiveStatusAt(now) != Executable { return Err(GovernanceError); }
      if material.Some? {
        if t.threshold != material.value.threshold {
          if t.threshold == 0 || t.threshold > |t.newSet| { return Err(InvalidThreshold); }
        }
        if |t.newSet| < t.threshold { return Err(InvalidThreshold); }
      }
      state := Rotating;
      locked := true;
      r := Ok(());
    }

    method Apply(t: Terms, newThreshold: nat, o: Oracle) returns (r: Result<(), TssError>)
      requires HasParticipants(View())
      modifies this
      ensures Stepped(r, View()) == ApplyRotation(crypto, old(View()), t, newThreshold, o)
    {
      if state != Rotating { return Err(LifecycleError); }
      if material.None? { return Err(LifecycleError); }
      var oldMaterial := material.value;
      if newThreshold != t.threshold { return Err(InvalidThreshold); }
      if newThreshold == 0 || newThreshold > |t.newSet| {
        state, locked := Active, false;
        return Err(InvalidThreshold);
      }
      var result := DoRotationViaResharing(oldMaterial, t.newSet, newThreshold, o, crypto.address);
      r := Commit(oldMaterial, newThreshold, result);
    }

    method Commit(oldMaterial: Material, newThreshold: nat, result: Result<Material, TssError>)
      returns (r: Result<(), TssError>)
      modifies this
      ensures Stepped(r, View()) == CommitRotation(crypto, old(View()), oldMaterial, newThreshold, result)
    {
      var oldVersion := version;
      state, locked := Active, false;
      if result.Err? { return Err(result.error); }
      var m := result.value;
      if m.groupKey.verifyingKey != oldMaterial.groupKey.verifyingKey { return Err(RotationFailed); }
      if m.groupKey.address != oldMaterial.groupKey.address { return Err(RotationFailed); }
      if m.threshold != newThreshold { return Err(RotationFailed); }
      keyId := DeriveKeyId(crypto, m.groupKey.verifyingKey, m.threshold, oldVersion + 1);
      material := Some(m);
      version := oldVersion + 1;
      r := Ok(());
    }

    method Rotate(request: TssRotationRequest, now: nat, o: Oracle) returns (r: Result<(), TssError>)
      requires HasParticipants(View())
      modifies this, request
      ensures Rotated(r, View(), request.View())
           == RotateWithRequest(crypto, old(View()), old(request.View()), now, o)
    {
      var begun := Begin(request, now);
      if begun.Err? { return Err(begun.error); }
      var marked := request.MarkAsResharingAt(now);
      if marked.Err? { return Err(GovernanceError); }
      var applied := Apply(request.terms, request.terms.threshold, o);
      if applied.Err? {
        var ignored := request.MarkAsFailed();
        return Err(applied.error);
      }
      var done := request.MarkAsCompleted();
      if done.Err? { return Err(GovernanceError); }
      r := Ok(());
    }

    method RetireKey() returns (r: Result<(), TssError>)
      modifies this
      ensures Stepped(r, View()) == Retire(old(View()))
    {
      if state == Retired { return Err(LifecycleError); }
      if locked { return Err(LifecycleLocked); }
      if state != Active { return Err(LifecycleError); }
      state := Retired;
      r := Ok(());
    }

    method SigningAllowed(requested: nat) returns (r: Result<(), TssError>)
      ensures r == CheckSigningAllowed(View(), requested)
    {
      if state == Retired { return Err(RetiredError); }
      if state != Active { return Err(LifecycleLocked); }
      if version != requested { return Err(StaleVersion(version, requested)); }
      if material.None? { return Err(LifecycleError); }
      r := Ok(());
    }
  }

  // ----- What every transition keeps

  predicate KeyInvariant(c: Crypto, l: KeyView) {
    && HasParticipants(l)
    && (l.locked <==> l.state == Refreshing || l.state == Rotating)
    && (l.material.None? <==> l.state == Created)
    && (l.groupKeyBytes.None? <==> l.state == Created)
    && (l.state == Created ==> l == INITIAL_KEY)
    && (l.material.Some? ==>
          var m := l.material.value;
          && 1 <= l.version && 1 <= m.threshold <= m.total == |m.participants|
          && m.groupKey.address == c.address(m.groupKey.verifyingKey)
          && l.groupKeyBytes == Some(c.compressed(m.groupKey.verifyingKey))
          && l.keyId == c.keccak(KeyIdPreimage(c.uncompressed(m.groupKey.verifyingKey), m.threshold, l.version)))
  }

  // Same group key and address, unless there was none yet.
  predicate SameGroupKey(l: KeyView, l': KeyView) {
    l.material.Some? ==>
      && l'.material.Some? && l'.material.value.groupKey == l.material.value.groupKey
      && l'.groupKeyBytes == l.groupKeyBytes
  }

  lemma DkgKeeps(c: Crypto, l: KeyView, run: Option<DkgRun>)
    requires KeyInvariant(c, l)
    ensures var s := Dkg(c, l, run);
            && KeyInvariant(c, s.next) && SameGroupKey(l, s.next)
            && (s.result.Err? ==> s.next == l)
            && (s.result.Ok? ==> l.state == Created && s.next.state == Active && s.next.version == 1)
  {
  }

  // Refresh either replaces the shares and nothing else, or nothing.
  lemma RefreshKeeps(c: Crypto, l: KeyView, o: Oracle)
    requires KeyInvariant(c, l)
    ensures var s := Refresh(c, l, o);
            && KeyInvariant(c, s.next) && SameGroupKey(l, s.next)
            && s.next == l.(material := s.next.material)
            && (s.result.Err? ==> s.next == l)
            && (s.result.Ok? ==>
                  l.state == Active && DoRefresh(l.material.value, o, c.address) == Ok(s.next.material.value))
  {
  }

  lemma BeginKeeps(c: Crypto, l: KeyView, r: Request, now: nat)
    requires KeyInvariant(c, l)
    ensures var s := BeginRotation(l, r, now);
            && KeyInvariant(c, s.next) && SameGroupKey(l, s.next)
            && (if s.result.Ok? then s.next == l.(state := Rotating, locked := true) else s.next == l)
  {
  }

  // Committing keeps the invariant for any outcome that is well shaped: it is
  // the checks made there that keep the group key.
  lemma CommitKeeps(c: Crypto, l: KeyView, newThreshold: nat, outcome: Result<Material, TssError>)
    requires KeyInvariant(c, l) && l.state == Rotating && 1 <= newThreshold
    requires outcome.Ok? ==>
               var m := outcome.value; m.participants != [] && m.threshold <= m.total == |m.participants|
    ensures var s := CommitRotation(c, l, l.material.value, newThreshold, outcome);
            && KeyInvariant(c, s.next) && SameGroupKey(l, s.next)
            && (s.result.Err? ==> s.next == l.(state := Active, locked := false))
            && (s.result.Ok? ==>
                  && outcome == Ok(s.next.material.value)
                  && s.next == l.(state := Active, locked := false, material := s.next.material,
                                  version := l.version + 1,
                                  keyId := DeriveKeyId(c, l.material.value.groupKey.verifyingKey, newThreshold,
                                                       l.version + 1)))
  {
  }

  // What DoRotation returns is well shaped.
  lemma RotationCommits(c: Crypto, l: KeyView, names: seq<Name>, newThreshold: nat, o: Oracle)
    requires KeyInvariant(c, l) && l.state == Rotating && 1 <= newThreshold
    ensures var outcome := DoRotation(l.material.value, names, newThreshold, o, c.address);
            outcome.Ok? ==>
              var m := outcome.value; m.participants != [] && m.threshold <= m.total == |m.participants|
  {
    if DoRotation(l.material.value, names, newThreshold, o, c.address).Ok? {
      RotationShape(l.material.value, names, newThreshold, o, c.address);
    }
  }

  // Past the threshold checks, applying is committing.
  lemma ApplyIsCommit(c: Crypto, l: KeyView, t: Terms, newThreshold: nat, o: Oracle)
    requires KeyInvariant(c, l) && l.state == Rotating && 1 <= newThreshold
    ensures var released := l.(state := Active, locked := false);
            ApplyRotation(c, l, t, newThreshold, o) ==
              if newThreshold != t.threshold then Stepped(Err(InvalidThreshold), l)
              else if newThreshold > |t.newSet| then Stepped(Err(InvalidThreshold), released)
              else CommitRotation(c, l, l.material.value, newThreshold,
                                  DoRotation(l.material.value, t.newSet, newThreshold, o, c.address))
  {
  }

  lemma ApplyKeeps(c: Crypto, l: KeyView, t: Terms, newThreshold: nat, o: Oracle)
    requires KeyInvariant(c, l)
    ensures var s := ApplyRotation(c, l, t, newThreshold, o);
            && KeyInvariant(c, s.next) && SameGroupKey(l, s.next)
            && s.next.version == (if s.result.Ok? then l.version + 1 else l.version)
            && (s.result.Err? ==>
                  s.next == l || (l.state == Rotating && s.next == l.(state := Active, locked := false)))
            && (s.result.Ok? ==>
                  && l.state == Rotating && newThreshold == t.threshold
                  && DoRotation(l.material.value, t.newSet, newThreshold, o, c.address) == Ok(s.next.material.value)
                  && s.next == l.(state := Active, locked := false, material := s.next.material,
                                  version := l.version + 1,
                                  keyId := DeriveKeyId(c, l.material.value.groupKey.verifyingKey, newThreshold,
                                                       l.version + 1)))
  {
    if l.state == Rotating && 1 <= newThreshold {
      ApplyIsCommit(c, l, t, newThreshold, o);
      RotationCommits(c, l, t.newSet, newThreshold, o);
      CommitKeeps(c, l, newThreshold, DoRotation(l.material.value, t.newSet, newThreshold, o, c.address));
    }
  }

  // Once rotating, a call of apply_rotation leaves the key unlocked exactly
  // when it is given the threshold of the request it is given.
  lemma ApplyReleasesExactlyOnMatch(c: Crypto, l: KeyView, t: Terms, newThreshold: nat, o: Oracle)
    requires KeyInvariant(c, l) && l.state == Rotating
    ensures var s := ApplyRotation(c, l, t, newThreshold, o);
            && (s.next.state == Active && !s.next.locked <==> newThreshold == t.threshold)
            && (newThreshold != t.threshold ==> s.next == l && s.result.Err?)
  {
  }

  // Left rotating, the key refuses every other operation unchanged.
  lemma RotatingBlocks(c: Crypto, l: KeyView, run: Option<DkgRun>, o: Oracle, r: Request, now: nat, version: nat)
    requires KeyInvariant(c, l) && l.state == Rotating
    ensures Dkg(c, l, run).result.Err? && Dkg(c, l, run).next == l
    ensures Refresh(c, l, o).result.Err? && Refresh(c, l, o).next == l
    ensures Retire(l).result.Err? && Retire(l).next == l
    ensures RotateWithRequest(c, l, r, now, o) == Rotated(Err(LifecycleError), l, r)
    ensures CheckSigningAllowed(l, version).Err?
  {
  }

  // Such a state is reached by a concrete pair of calls.
  lemma MismatchedApplyStaysLocked(c: Crypto, run: DkgRun, o: Oracle) returns (r: Request, now: nat)
    ensures RequestInvariant(r)
    ensures var key := Dkg(c, INITIAL_KEY, Some(run)).next;
            var begun := BeginRotation(key, r, now);
            var applied := ApplyRotation(c, begun.next, r.terms, r.terms.threshold + 1, o);
            begun.result.Ok? && applied.result == Err(InvalidThreshold) && applied.next.locked
            && applied.next.state == Rotating
  {
    var t := Terms(1, Zeros(20), 1, [[65], [66]], 2, [103], [], 0, 1, MIN_TIMELOCK_SECONDS, c.compressed(run.key));
    r := Approve(Request(t, None, [], Pending), [103], 0).next;
    now := MIN_TIMELOCK_SECONDS;
  }

  // ----- Governed rotation is all or nothing

  // If beginning is refused, neither object changes. Otherwise the call ends
  // unlocked and active: with the new material, the next version, its key id
  // and the request completed, or with the key exactly as it was and the
  // request failed.
  lemma {:induction false} RotationAllOrNothing(c: Crypto, l: KeyView, r: Request, now: nat, o: Oracle)
    requires KeyInvariant(c, l) && RequestInvariant(r)
    ensures var begun := BeginRotation(l, r, now);
            var s := RotateWithRequest(c, l, r, now, o);
            && KeyInvariant(c, s.key) && RequestInvariant(s.request) && SameGroupKey(l, s.key)
            && s.request.terms == r.terms && s.request.approvals == r.approvals
            && (begun.result.Err? ==> s == Rotated(begun.result, l, r))
            && (begun.result.Ok? ==>
                  && MarkResharingAt(r, now).result.Ok?
                  && l.state == Active && s.key.state == Active && !s.key.locked
                  && (s.result.Err? ==> s.key == l && s.request == r.(status := Failed))
                  && (s.result.Ok? ==>
                        && s.request == r.(status := Completed)
                        && DoRotation(l.material.value, r.terms.newSet, r.terms.threshold, o, c.address)
                           == Ok(s.key.material.value)
                        && s.key == l.(material := s.key.material, version := l.version + 1,
                                       keyId := DeriveKeyId(c, l.material.value.groupKey.verifyingKey,
                                                            r.terms.threshold, l.version + 1))))
  {
    BeginKeeps(c, l, r, now);
    var begun := BeginRotation(l, r, now);
    if begun.result.Ok? {
      MarkingCannotFail(l, r, now);
      ApplyOutcome(c, l, begun.next, r.terms, o);
    }
  }

  // The time-checked marking succeeds whenever beginning did, and the closing
  // marks then do too.
  lemma MarkingCannotFail(l: KeyView, r: Request, now: nat)
    requires RequestInvariant(r) && BeginRotation(l, r, now).result.Ok?
    ensures MarkResharingAt(r, now) == Stepped(Ok(()), r.(status := Resharing))
    ensures MarkCompleted(r.(status := Resharing)) == Stepped(Ok(()), r.(status := Completed))
    ensures MarkFailed(r.(status := Resharing)) == Stepped(Ok(()), r.(status := Failed))
    ensures |r.approvals| == r.terms.quorum && r.executableAt.Some?
  {
  }

  lemma LockedKeeps(c: Crypto, l: KeyView, begun: KeyView)
    requires KeyInvariant(c, l) && l.state == Active && begun == l.(state := Rotating, locked := true)
    ensures KeyInvariant(c, begun) && begun.(state := Active, locked := false) == l
  {
  }

  // Applying the threshold of the request on a key that just began rotating.
  lemma ApplyOutcome(c: Crypto, l: KeyView, begun: KeyView, t: Terms, o: Oracle)
    requires KeyInvariant(c, l) && l.state == Active && begun == l.(state := Rotating, locked := true)
    ensures var s := ApplyRotation(c, begun, t, t.threshold, o);
            && KeyInvariant(c, s.next) && SameGroupKey(l, s.next)
            && (s.result.Err? ==> s.next == l)
            && (s.result.Ok? ==>
                  && DoRotation(l.material.value, t.newSet, t.threshold, o, c.address) == Ok(s.next.material.value)
                  && s.next == l.(material := s.next.material, version := l.version + 1,
                                  keyId := DeriveKeyId(c, l.material.value.groupKey.verifyingKey, t.threshold,
                                                       l.version + 1)))
  {
    LockedKeeps(c, l, begun);
    ApplyKeeps(c, begun, t, t.threshold, o);
    ApplyReleasesExactlyOnMatch(c, begun, t, t.threshold, o);
  }

  // Governed rotation succeeds exactly on an active key, for a request made
  // for its current version and group key that reached quorum and whose
  // release time has come, when resharing succeeds. The threshold checks never
  // decide: initiation already made sure of them.
  lemma RotationSucceedsExactlyWhen(c: Crypto, l: KeyView, r: Request, now: nat, o: Oracle)
    requires KeyInvariant(c, l) && RequestInvariant(r)
    ensures BeginRotation(l, r, now).result.Ok? <==>
              && l.state == Active
              && r.terms.oldVersion == l.version
              && r.terms.groupKey == c.compressed(l.material.value.groupKey.verifyingKey)
              && r.status == QuorumReached && now >= r.executableAt.value
    ensures RotateWithRequest(c, l, r, now, o).result.Ok? <==>
              && BeginRotation(l, r, now).result.Ok?
              && DoRotation(l.material.value, r.terms.newSet, r.terms.threshold, o, c.address).Ok?
  {
  }

  // Retirement is open exactly to an active key, changes nothing but the
  // state, and ends signing for every version.
  lemma RetirementEndsSigning(c: Crypto, l: KeyView, version: nat)
    requires KeyInvariant(c, l)
    ensures Retire(l).result.Ok? <==> l.state == Active
    ensures Retire(l).next == if l.state == Active then l.(state := Retired) else l
    ensures Retire(l).result.Ok? ==> CheckSigningAllowed(Retire(l).next, version) == Err(RetiredError)
  {
  }

  // What it takes to begin, governed or not: a request for this version and key
  // that holds exactly its quorum of distinct approvals and is released.
  lemma BeginWasReleased(c: Crypto, l: KeyView, r: Request, now: nat)
    requires KeyInvariant(c, l) && RequestInvariant(r) && BeginRotation(l, r, now).result.Ok?
    ensures r.status == QuorumReached && r.executableAt.Some? && now >= r.executableAt.value
    ensures |r.approvals| == r.terms.quorum && DistinctNames(r.approvals) && r.terms.oldVersion == l.version
    ensures l.material.Some? && r.terms.groupKey == c.compressed(l.material.value.groupKey.verifyingKey)
  {
    MarkingCannotFail(l, r, now);
  }

  // ----- What each operation reports and leaves

  // Creation succeeds exactly on a new key when the protocol does. The three
  // parties get the shares and auxiliary data the protocol returned for them.
  lemma DkgYields(c: Crypto, l: KeyView, run: Option<DkgRun>)
    requires KeyInvariant(c, l)
    ensures Dkg(c, l, run).result == Err(LifecycleError) <==> l.state != Created
    ensures Dkg(c, l, run).result == Err(DkgFailed) <==> l.state == Created && run.None?
    ensures Dkg(c, l, run).result.Ok? <==> l.state == Created && run.Some?
    ensures Dkg(c, l, run).result.Ok? ==>
              var s := Dkg(c, l, run).next;
              && s.state == Active && !s.locked && s.version == 1 && s.material.Some?
              && s.groupKeyBytes == Some(c.compressed(run.value.key))
              && var m := s.material.value;
                 && m.groupKey.verifyingKey == run.value.key && m.groupKey.address == c.address(run.value.key)
                 && m.threshold == 2 && m.total == 3 == |m.participants|
                 && forall i: Byte :: 0 <= i < 3 ==>
                      m.participants[i].index == i && m.participants[i].party == i
                      && m.participants[i].share == run.value.share(i) && m.participants[i].aux == run.value.aux(i)
  {
  }

  // Refresh succeeds exactly on an active key when the resharing helper does, and
  // installs what that returned.
  lemma RefreshYields(c: Crypto, l: KeyView, o: Oracle)
    requires KeyInvariant(c, l)
    ensures Refresh(c, l, o).result.Ok? <==> l.state == Active && DoRefresh(l.material.value, o, c.address).Ok?
    ensures Refresh(c, l, o).result.Ok? ==>
              Refresh(c, l, o).next.material == Some(DoRefresh(l.material.value, o, c.address).value)
    ensures Refresh(c, l, o).result == Err(LifecycleError) <==> l.state != Active
    ensures Refresh(c, l, o).result == Err(RefreshFailed) <==>
              l.state == Active && DoRefresh(l.material.value, o, c.address).Err?
  {
    if l.state == Active {
      RefreshSucceedsExactly(l.material.value, o, c.address);
    }
  }

  // Beginning reports the first guard that does not hold.
  lemma BeginRefusals(c: Crypto, l: KeyView, r: Request, now: nat)
    requires KeyInvariant(c, l) && RequestInvariant(r)
    ensures var result := BeginRotation(l, r, now).result;
            && (result == Err(LifecycleError) <==> l.state != Active)
            && (result == Err(StaleVersion(l.version, r.terms.oldVersion)) <==>
                  l.state == Active && r.terms.oldVersion != l.version)
            && (result == Err(GovernanceError) <==>
                  && l.state == Active && r.terms.oldVersion == l.version
                  && !(r.terms.groupKey == c.compressed(l.material.value.groupKey.verifyingKey)
                       && r.status == QuorumReached && now >= r.executableAt.value))
            && (result.Ok? || result.error.LifecycleError? || result.error.StaleVersion?
                || result.error.GovernanceError?)
  {
  }

  // Applying reports a wrong state, a threshold that is not the request's, or
  // what the resharing helper reports.
  lemma ApplyRefusals(c: Crypto, l: KeyView, t: Terms, newThreshold: nat, o: Oracle)
    requires KeyInvariant(c, l)
    ensures var result := ApplyRotation(c, l, t, newThreshold, o).result;
            && (l.state != Rotating ==> result == Err(LifecycleError))
            && (l.state == Rotating && (newThreshold != t.threshold || !(1 <= newThreshold <= |t.newSet|)) ==>
                  result == Err(InvalidThreshold))
            && (l.state == Rotating && newThreshold == t.threshold && 1 <= newThreshold <= |t.newSet| ==>
                  var helper := DoRotation(l.material.value, t.newSet, newThreshold, o, c.address);
                  if helper.Err? then result == Err(helper.error) else result == Ok(()))
  {
    if l.state == Rotating && 1 <= newThreshold {
      ApplyIsCommit(c, l, t, newThreshold, o);
      RotationCommits(c, l, t.newSet, newThreshold, o);
      if DoRotation(l.material.value, t.newSet, newThreshold, o, c.address).Ok? {
        RotationShape(l.material.value, t.newSet, newThreshold, o, c.address);
      }
    }
  }

  // A governed rotation reports what beginning or the resharing helper reports.
  lemma RotateReports(c: Crypto, l: KeyView, r: Request, now: nat, o: Oracle)
    requires KeyInvariant(c, l) && RequestInvariant(r)
    ensures var begun := BeginRotation(l, r, now).result;
            RotateWithRequest(c, l, r, now, o).result ==
              if begun.Err? then begun
              else match DoRotation(l.material.value, r.terms.newSet, r.terms.threshold, o, c.address)
                   case Err(e) => Err(e)
                   case Ok(_) => Ok(())
  {
    if BeginRotation(l, r, now).result.Ok? {
      MarkingCannotFail(l, r, now);
      LockedKeeps(c, l, l.(state := Rotating, locked := true));
      ApplyRefusals(c, l.(state := Rotating, locked := true), r.terms, r.terms.threshold, o);
      RotationSucceedsExactlyWhen(c, l, r, now, o);
    }
  }

  // Signing reports retirement, a key in use, or both versions.
  lemma SigningRefusals(c: Crypto, l: KeyView, version: nat)
    requires KeyInvariant(c, l)
    ensures var result := CheckSigningAllowed(l, version);
            && (result == Err(RetiredError) <==> l.state == Retired)
            && (result == Err(LifecycleLocked) <==> l.state != Active && l.state != Retired)
            && (result == Err(StaleVersion(l.version, version)) <==> l.state == Active && version != l.version)
            && (result == Ok(()) <==> l.state == Active && version == l.version)
  {
  }

  lemma RetireRefusals(c: Crypto, l: KeyView)
    requires KeyInvariant(c, l)
    ensures Retire(l).result == Err(LifecycleLocked) <==> l.state == Refreshing || l.state == Rotating
    ensures Retire(l).result == Err(LifecycleError) <==> l.state == Created || l.state == Retired
    ensures Retire(l).result == Ok(()) <==> l.state == Active
  {
  }

  // Where each field of the key-id preimage lies.
  lemma KeyIdLayout(point: Bytes, threshold: nat, version: nat)
    ensures var b, n := KeyIdPreimage(point, threshold, version), |point|;
            && |b| == n + 37 && b[..n] == point && b[n..n + 21] == Ascii("synedrion/0.3-cggmp24")
            && b[n + 21..n + 29] == BE(threshold, 8) && b[n + 29..] == BE(version, 8)
  {
  }
}
