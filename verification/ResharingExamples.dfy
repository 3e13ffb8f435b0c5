// Concrete rotations that succeed: what the checks of the resharing helper do
// not rule out.
module ResharingExamples {
  import opened Bytes
  import opened Names
  import opened Outcome
  import opened Resharing

  function OneKey(key: Key): Party -> Key {
    _ => key
  }

  // The party of a name that answers to position k.
  lemma PartyOfPosition(olds: seq<Participant>, names: seq<Name>, i: nat, k: nat)
    requires i < |names| && Answers(names[i], k)
    ensures NewParties(olds, names)[i] == if k < |olds| then olds[k].party else FreshParty(i)
    ensures Resolve(names[i], |olds|) == if k < |olds| then Some(k) else None
  {
    NameTableMeaning(|olds|, names[i], k);
    if names[i] in NameTable(|olds|) {
      var r := NameTable(|olds|)[names[i]];
      NameTableMeaning(|olds|, names[i], r);
      NamesOnePosition(names[i], r, k);
    }
    assert NewParties(olds, names)[i] == NewParty(olds, names, i);
  }

  // Only one share is checked: a rotation can succeed with another share under
  // another key.
  lemma OtherSharesUnchecked(m: Material, other: Key, address: Key -> Bytes)
    requires PartySeq(m.participants) == [0, 1, 2] && other != m.groupKey.verifyingKey
    ensures var keys := KeyFor(0, m.groupKey.verifyingKey, other);
            var r := DoRotation(m, [Alias(0), Alias(1)], 2, Willing(keys), address);
            && r.Ok? && |r.value.participants| == 2
            && r.value.groupKey.verifyingKey == m.groupKey.verifyingKey
            && r.value.participants[1].party == 1 && r.value.participants[1].share.verifyingKey == Some(other)
  {
    var olds, names := m.participants, [Alias(0), Alias(1)];
    assert |olds| == 3 && olds[0].party == PartySeq(olds)[0] && olds[1].party == PartySeq(olds)[1];
    PartyOfPosition(olds, names, 0, 0);
    PartyOfPosition(olds, names, 1, 1);
    assert forall p :: LeastParty(NewParties(olds, names), p) ==> p <= NewParties(olds, names)[0];
    WillingRotates(m, names, 2, KeyFor(0, m.groupKey.verifyingKey, other), address);
  }

  // Names that are apart do not keep a dropped holder out: party 102, admitted
  // as "D" by one rotation, is dropped by the names of the next and holds a
  // share after it all the same, as "E".
  lemma DroppedPartyReturns(m: Material, address: Key -> Bytes) returns (m1: Material, m2: Material)
    requires PartySeq(m.participants) == [0, 1, 2]
    ensures var o := Willing(OneKey(m.groupKey.verifyingKey));
            && DoRotation(m, [Alias(0), Alias(1), Alias(3)], 2, o, address) == Ok(m1)
            && m1.participants != []
            && DoRotation(m1, [Alias(0), Alias(1), Alias(4)], 2, o, address) == Ok(m2)
    ensures PartySeq(m1.participants) == [0, 1, 102] == PartySeq(m2.participants)
    ensures NamesApart(m.participants, [Alias(0), Alias(1), Alias(3)])
    ensures NamesApart(m1.participants, [Alias(0), Alias(1), Alias(4)])
    ensures forall i :: 0 <= i < 3 ==> Resolve([Alias(0), Alias(1), Alias(4)][i], 3) != Some(2)
  {
    assert |m.participants| == 3 && forall i :: 0 <= i < 3 ==> m.participants[i].party == PartySeq(m.participants)[i];
    m1 := RotateThird(m, 3, address);
    var ps := m1.participants;
    assert |ps| == 3 && forall i :: 0 <= i < 3 ==> ps[i].party == PartySeq(ps)[i];
    m2 := RotateThird(m1, 4, address);
    ThirdUnnamed(m1.participants, 4);
  }

  lemma ThirdUnnamed(olds: seq<Participant>, k: nat)
    requires |olds| == 3 && 3 <= k < 5
    ensures forall i :: 0 <= i < 3 ==> Resolve([Alias(0), Alias(1), Alias(k)][i], 3) != Some(2)
  {
    var names := [Alias(0), Alias(1), Alias(k)];
    PartyOfPosition(olds, names, 0, 0);
    PartyOfPosition(olds, names, 1, 1);
    PartyOfPosition(olds, names, 2, k);
  }

  lemma ThirdParties(olds: seq<Participant>, k: nat)
    requires |olds| == 3 && olds[0].party == 0 && olds[1].party == 1 && 3 <= k < 5 && olds[2].party >= 2
    ensures NewParties(olds, [Alias(0), Alias(1), Alias(k)]) == [0, 1, 102]
    ensures NamesApart(olds, [Alias(0), Alias(1), Alias(k)])
  {
    var names := [Alias(0), Alias(1), Alias(k)];
    PartyOfPosition(olds, names, 0, 0);
    PartyOfPosition(olds, names, 1, 1);
    PartyOfPosition(olds, names, 2, k);
    NewPartiesApart(olds, names);
  }

  // Positions 0 and 1 stay, and a name beyond the three positions joins them.
  lemma RotateThird(m: Material, k: nat, address: Key -> Bytes) returns (m': Material)
    requires |m.participants| == 3 && m.participants[0].party == 0 && m.participants[1].party == 1 && 3 <= k < 5
    requires m.participants[2].party >= 2
    ensures var o := Willing(OneKey(m.groupKey.verifyingKey));
            DoRotation(m, [Alias(0), Alias(1), Alias(k)], 2, o, address) == Ok(m')
    ensures m'.groupKey.verifyingKey == m.groupKey.verifyingKey
    ensures PartySeq(m'.participants) == [0, 1, 102] && NamesApart(m.participants, [Alias(0), Alias(1), Alias(k)])
  {
    var names := [Alias(0), Alias(1), Alias(k)];
    ThirdParties(m.participants, k);
    WillingRotates(m, names, 2, OneKey(m.groupKey.verifyingKey), address);
    m' := DoRotation(m, names, 2, Willing(OneKey(m.groupKey.verifyingKey)), address).value;
  }
}
