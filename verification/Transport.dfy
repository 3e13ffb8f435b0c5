// The in-process transport log: injected faults, and which of them the three
// log checks notice.
module Transport {
  import opened Bytes
  import opened Outcome

  datatype Message = Message(sessionId: Bytes, sender: Byte, round: Byte, payload: Bytes, digest: Bytes)

  datatype LogError =
    | SessionMismatchFrom(sender: Byte)
    | DigestMismatchFrom(sender: Byte)
    | DuplicateRound(sender: Byte, round: Byte)
    | InvalidRound(round: Byte)

  predicate Bound(m: Message, session: Bytes, digest: Bytes) {
    m.sessionId == session && m.digest == digest
  }

  predicate SameSlot(m: Message, n: Message) {
    m.sender == n.sender && m.round == n.round
  }

  predicate SlotsDistinct(log: seq<Message>) {
    forall i, j :: 0 <= i < j < |log| ==> !SameSlot(log[i], log[j])
  }

  // Order-preserving removal of one sender's messages.
  function Without(log: seq<Message>, sender: Byte): seq<Message> {
    if log == [] then []
    else (if log[0].sender != sender then [log[0]] else []) + Without(log[1..], sender)
  }

  lemma {:induction false} WithoutIsSublog(log: seq<Message>, sender: Byte)
    ensures forall m :: m in Without(log, sender) <==> m in log && m.sender != sender
    ensures SlotsDistinct(log) ==> SlotsDistinct(Without(log, sender))
  {
    if log != [] {
      WithoutIsSublog(log[1..], sender);
      var rest := Without(log[1..], sender);
      assert forall m :: m in log <==> m == log[0] || m in log[1..];
      if SlotsDistinct(log) {
        assert SlotsDistinct(log[1..]);
        forall k | 0 <= k < |rest| ensures !SameSlot(log[0], rest[k]) {
          assert rest[k] in log[1..];
        }
      }
    }
  }

  lemma WithoutOne(m: Message, sender: Byte)
    ensures Without([m], sender) == if m.sender == sender then [] else [m]
  {
    assert [m][1..] == [];
  }

  // Dropping goes message by message, so it keeps the order of the others.
  lemma {:induction false} WithoutSplits(a: seq<Message>, b: seq<Message>, sender: Byte)
    ensures Without(a + b, sender) == Without(a, sender) + Without(b, sender)
  {
    if a == [] {
      assert a + b == b;
      assert [] + Without(b, sender) == Without(b, sender);
    } else {
      WithoutSplits(a[1..], b, sender);
      WithoutFirst(a, b, sender);
      var first := if a[0].sender != sender then [a[0]] else [];
      Associate(first, Without(a[1..], sender), Without(b, sender));
    }
  }

  lemma WithoutFirst(a: seq<Message>, b: seq<Message>, sender: Byte)
    requires a != []
    ensures Without(a + b, sender)
         == (if a[0].sender != sender then [a[0]] else []) + Without(a[1..] + b, sender)
  {
    assert (a + b)[1..] == a[1..] + b;
  }

  // Moving past message i, kept or not.
  lemma WithoutNext(kept: seq<Message>, log: seq<Message>, i: nat, sender: Byte)
    requires i < |log|
    ensures kept + Without(log[i..], sender)
         == (if log[i].sender != sender then kept + [log[i]] else kept) + Without(log[i + 1..], sender)
  {
    var rest := Without(log[i + 1..], sender);
    assert log[i..][1..] == log[i + 1..];
    if log[i].sender != sender {
      assert kept + ([log[i]] + rest) == (kept + [log[i]]) + rest;
    } else {
      assert [] + rest == rest;
    }
  }

  predicate FirstUnbound(log: seq<Message>, session: Bytes, digest: Bytes, i: nat)
    requires i < |log|
  {
    && !Bound(log[i], session, digest)
    && forall j :: 0 <= j < i ==> Bound(log[j], session, digest)
  }

  predicate FirstRepeated(log: seq<Message>, i: nat)
    requires i < |log|
  {
    SlotsDistinct(log[..i]) && !SlotsDistinct(log[..i + 1])
  }

  predicate FirstOutOfRange(log: seq<Message>, i: nat)
    requires i < |log|
  {
    && !(1 <= log[i].round <= 3)
    && forall j :: 0 <= j < i ==> 1 <= log[j].round <= 3
  }

  class SimulatedTransport {
    var messages: seq<Message>

    constructor ()
      ensures messages == []
    {
      messages := [];
    }

    method Send(m: Message)
      modifies this
      ensures messages == old(messages) + [m]
    {
      messages := messages + [m];
    }

    method DropFrom(sender: Byte)
      modifies this
      ensures messages == Without(old(messages), sender)
    {
      ghost var log := messages;
      var kept: seq<Message> := [];
      assert log[0..] == log;
      for i := 0 to |messages|
        invariant messages == log
        invariant kept + Without(log[i..], sender) == Without(log, sender)
      {
        WithoutNext(kept, log, i, sender);
        if messages[i].sender != sender {
          kept := kept + [messages[i]];
        }
      }
      messages := kept;
    }

    method DuplicateFirst()
      modifies this
      ensures messages == if old(messages) == [] then [] else old(messages) + [old(messages)[0]]
    {
      if messages != [] {
        messages := messages + [messages[0]];
      }
    }

    method Reorder()
      modifies this
      ensures messages == Swapped(old(messages))
    {
      if |messages| >= 2 {
        messages := messages[0 := messages[1]][1 := messages[0]];
      }
    }

    method ModifyFirstDigest(digest: Bytes)
      modifies this
      ensures messages == if old(messages) == [] then []
                          else old(messages)[0 := old(messages)[0].(digest := digest)]
    {
      if messages != [] {
        messages := messages[0 := messages[0].(digest := digest)];
      }
    }

    // The first message out of binding is reported, its session first.
    method VerifyBinding(session: Bytes, digest: Bytes) returns (r: Result<(), LogError>)
      ensures r.Ok? <==>
                forall i :: 0 <= i < |messages| ==> messages[i].sessionId == session && messages[i].digest == digest
      ensures r.Err? ==>
                exists i :: 0 <= i < |messages| && FirstUnbound(messages, session, digest, i)
                            && r.error == if messages[i].sessionId != session
                                          then SessionMismatchFrom(messages[i].sender)
                                          else DigestMismatchFrom(messages[i].sender)
    {
      for i := 0 to |messages|
        invariant forall j :: 0 <= j < i ==> Bound(messages[j], session, digest)
      {
        var m := messages[i];
        if m.sessionId != session {
          r := Err(SessionMismatchFrom(m.sender));
          assert FirstUnbound(messages, session, digest, i);
          return;
        }
        if m.digest != digest {
          r := Err(DigestMismatchFrom(m.sender));
          assert FirstUnbound(messages, session, digest, i);
          return;
        }
      }
      r := Ok(());
    }

    // The first repeated slot is reported.
    method CheckNoDuplicate() returns (r: Result<(), LogError>)
      ensures r.Ok? <==>
                forall i, j :: 0 <= i < j < |messages| ==>
                                 messages[i].sender != messages[j].sender || messages[i].round != messages[j].round
      ensures r.Err? ==>
                exists i :: 0 <= i < |messages| && FirstRepeated(messages, i)
                            && r.error == DuplicateRound(messages[i].sender, messages[i].round)
    {
      var seen: set<(Byte, Byte)> := {};
      for i := 0 to |messages|
        invariant seen == set j | 0 <= j < i :: (messages[j].sender, messages[j].round)
        invariant SlotsDistinct(messages[..i])
      {
        var key := (messages[i].sender, messages[i].round);
        if key in seen {
          var j :| 0 <= j < i && (messages[j].sender, messages[j].round) == key;
          assert SameSlot(messages[..i + 1][j], messages[..i + 1][i]);
          assert SameSlot(messages[j], messages[i]);
          r := Err(DuplicateRound(messages[i].sender, messages[i].round));
          assert FirstRepeated(messages, i);
          return;
        }
        seen := seen + {key};
      }
      assert messages[..|messages|] == messages;
      assert forall i, j :: 0 <= i < j < |messages| ==> !SameSlot(messages[i], messages[j]);
      r := Ok(());
    }

    // Despite its name this checks the range of rounds, not their order.
    method CheckRoundOrder() returns (r: Result<(), LogError>)
      ensures r.Ok? <==> forall i :: 0 <= i < |messages| ==> 1 <= messages[i].round <= 3
      ensures r.Err? ==>
                exists i :: 0 <= i < |messages| && FirstOutOfRange(messages, i)
                            && r.error == InvalidRound(messages[i].round)
    {
      for i := 0 to |messages|
        invariant forall j :: 0 <= j < i ==> 1 <= messages[j].round <= 3
      {
        if messages[i].round == 0 || messages[i].round > 3 {
          r := Err(InvalidRound(messages[i].round));
          assert FirstOutOfRange(messages, i);
          return;
        }
      }
      r := Ok(());
    }
  }

  // ----- Faults and verdicts

  datatype Fault = Drop(sender: Byte) | Duplicate | Swap | Substitute(digest: Bytes)

  function Swapped(log: seq<Message>): seq<Message> {
    if |log| >= 2 then [log[1], log[0]] + log[2..] else log
  }

  function Faulty(log: seq<Message>, f: Fault): seq<Message> {
    match f
    case Drop(s) => Without(log, s)
    case Duplicate => if log == [] then [] else log + [log[0]]
    case Swap => Swapped(log)
    case Substitute(d) => if log == [] then [] else log[0 := log[0].(digest := d)]
  }

  predicate AllBound(log: seq<Message>, session: Bytes, digest: Bytes) {
    forall i :: 0 <= i < |log| ==> Bound(log[i], session, digest)
  }

  predicate RoundsInRange(log: seq<Message>) {
    forall i :: 0 <= i < |log| ==> 1 <= log[i].round <= 3
  }

  predicate Passes(log: seq<Message>, session: Bytes, digest: Bytes) {
    AllBound(log, session, digest) && SlotsDistinct(log) && RoundsInRange(log)
  }

  // On a clean log with something in it, the checks notice a duplication
  // always and a substitution unless it puts back the right digest; they
  // never notice a drop or a swap.
  lemma FaultsNoticed(log: seq<Message>, session: Bytes, digest: Bytes, f: Fault)
    requires log != [] && Passes(log, session, digest)
    ensures Passes(Faulty(log, f), session, digest) <==>
              match f
              case Drop(_) => true
              case Duplicate => false
              case Swap => true
              case Substitute(d) => d == digest
  {
    var bad := Faulty(log, f);
    match f {
      case Drop(s) =>
        WithoutIsSublog(log, s);
        forall i | 0 <= i < |bad| ensures Bound(bad[i], session, digest) && 1 <= bad[i].round <= 3 {
          assert bad[i] in log;
        }
      case Duplicate =>
        assert SameSlot(bad[0], bad[|log|]);
      case Swap =>
      case Substitute(d) =>
        assert bad[0].digest == d;
        assert forall i :: 0 <= i < |log| ==> SameSlot(bad[i], log[i]);
    }
  }

  lemma SwappedPlaces(log: seq<Message>, i: nat)
    requires i < |log|
    ensures |Swapped(log)| == |log|
    ensures Swapped(log)[i] == if |log| >= 2 && i == 0 then log[1] else if |log| >= 2 && i == 1 then log[0] else log[i]
  {
  }
}
